/** Whitespace handling of the cleaners (text/cleaners.py): `collapse_whitespace`,
    which rewrites every match of `_whitespace_re` (`\s+`) as one space, and the
    `str.strip()` applied to the phonemizer's output. */
module Whitespace {
  import opened TextChars

  predicate AllSpace(s: string)
  {
    forall i | 0 <= i < |s| :: IsSpace(s[i])
  }

  lemma AllSpaceCons(s: string)
    requires s != []
    ensures AllSpace(s) <==> IsSpace(s[0]) && AllSpace(s[1..])
  {
    if IsSpace(s[0]) && AllSpace(s[1..]) {
      forall k | 0 < k < |s| ensures IsSpace(s[k]) {
        assert s[k] == s[1..][k - 1];
      }
    }
  }

  /** The string with its leading whitespace removed (`str.lstrip()`). */
  function TrimStart(s: string): (r: string)
    ensures |r| <= |s|
    ensures r == [] || !IsSpace(r[0])
    ensures r != [] ==> r[|r| - 1] == s[|s| - 1]
  {
    if s != [] && IsSpace(s[0]) then TrimStart(s[1..]) else s
  }

  /** What `lstrip()` cuts off is a run of whitespace, and what it keeps is the rest. */
  lemma {:induction false} TrimStartSuffix(s: string)
    ensures var n := |s| - |TrimStart(s)|; TrimStart(s) == s[n..] && AllSpace(s[..n])
  {
    if s != [] && IsSpace(s[0]) {
      TrimStartSuffix(s[1..]);
      var n := |s| - |TrimStart(s)|;
      assert s[n..] == s[1..][n - 1..];
      forall k | 0 <= k < n ensures IsSpace(s[k]) {
        if k > 0 { assert s[k] == s[1..][..n - 1][k - 1]; }
      }
    }
  }

  /** `lstrip()` empties exactly the all-whitespace strings. */
  lemma {:induction false} TrimStartEmpty(s: string)
    ensures TrimStart(s) == [] <==> AllSpace(s)
  {
    if s != [] {
      AllSpaceCons(s);
      if IsSpace(s[0]) {
        TrimStartEmpty(s[1..]);
      }
    }
  }

  /** The string with its trailing whitespace removed (`str.rstrip()`). */
  function TrimEnd(s: string): (r: string)
    ensures |r| <= |s|
    ensures r == [] || !IsSpace(r[|r| - 1])
    ensures r != [] ==> r[0] == s[0]
  {
    if s != [] && IsSpace(s[|s| - 1]) then TrimEnd(s[..|s| - 1]) else s
  }

  /** What `rstrip()` cuts off is a run of whitespace, and what it keeps is the rest. */
  lemma {:induction false} TrimEndPrefix(s: string)
    ensures var m := |TrimEnd(s)|; TrimEnd(s) == s[..m] && AllSpace(s[m..])
  {
    if s != [] && IsSpace(s[|s| - 1]) {
      var s' := s[..|s| - 1];
      TrimEndPrefix(s');
      var m := |TrimEnd(s)|;
      assert s[..m] == s'[..m];
      forall k | m <= k < |s| ensures IsSpace(s[k]) {
        if k < |s| - 1 { assert s[k] == s'[m..][k - m]; }
      }
    }
  }

  /** No whitespace at either end, as `str.strip()` leaves it. */
  predicate Trimmed(s: string)
  {
    s == [] || (!IsSpace(s[0]) && !IsSpace(s[|s| - 1]))
  }

  /** `str.strip()`: whitespace cut off at both ends. */
  function Strip(s: string): (r: string)
    ensures Trimmed(r)
  {
    TrimEnd(TrimStart(s))
  }

  /** `strip()` returns a slice of its input with only whitespace cut off on
      either side. */
  lemma StripSlice(s: string)
    ensures var r, i := Strip(s), |s| - |TrimStart(s)|;
      && i + |r| <= |s| && r == s[i..i + |r|]
      && AllSpace(s[..i]) && AllSpace(s[i + |r|..])
  {
    StripKeeps(s);
    StripCutsEnd(s);
    TrimStartSuffix(s);
  }

  lemma StripKeeps(s: string)
    ensures var r, i := Strip(s), |s| - |TrimStart(s)|; i + |r| <= |s| && r == s[i..i + |r|]
  {
    var t := TrimStart(s);
    var r := TrimEnd(t);
    var i := |s| - |t|;
    TrimStartSuffix(s);
    TrimEndPrefix(t);
    assert s[i..i + |r|] == t[..|r|];
  }

  lemma StripCutsEnd(s: string)
    ensures var r, i := Strip(s), |s| - |TrimStart(s)|; i + |r| <= |s| && AllSpace(s[i + |r|..])
  {
    var t := TrimStart(s);
    var r := TrimEnd(t);
    var i := |s| - |t|;
    TrimStartSuffix(s);
    TrimEndPrefix(t);
    assert s[i + |r|..] == t[|r|..];
  }

  /** `strip()` returns the empty string exactly on all-whitespace input. */
  lemma StripEmpty(s: string)
    ensures Strip(s) == [] <==> AllSpace(s)
  {
    var t := TrimStart(s);
    TrimStartEmpty(s);
    TrimEndPrefix(t);
    var m := |TrimEnd(t)|;
    assert m < |t| ==> t[m..][0] == t[m];
  }

  /** The shape `collapse_whitespace` promises: no whitespace character other than
      ' ', and never two whitespace characters side by side. */
  predicate Collapsed(s: string)
  {
    && (forall i | 0 <= i < |s| :: IsSpace(s[i]) ==> s[i] == ' ')
    && (forall i, j | 0 <= i < |s| && 0 <= j < |s| && j == i + 1 :: !(IsSpace(s[i]) && IsSpace(s[j])))
  }

  /** `collapse_whitespace`: `re.sub(r'\s+', ' ', text)`. Scanning from the left,
      a whitespace character starts a greedy match that swallows the whole run,
      and the run is written as a single ' '; any other character is copied. */
  function CollapseWhitespace(s: string): (r: string)
    ensures Collapsed(r)
    ensures |r| <= |s|
    ensures r == [] <==> s == []
    ensures r != [] ==> (IsSpace(r[0]) <==> IsSpace(s[0]))
    ensures r != [] && !IsSpace(s[0]) ==> r[0] == s[0]
    decreases |s|
  {
    if s == [] then []
    else if IsSpace(s[0]) then " " + CollapseWhitespace(TrimStart(s[1..]))
    else [s[0]] + CollapseWhitespace(s[1..])
  }

  /** The non-whitespace characters of `s`, in order. */
  function NonSpace(s: string): (r: string)
    ensures |r| <= |s|
    ensures forall i | 0 <= i < |r| :: !IsSpace(r[i])
  {
    if s == [] then [] else (if IsSpace(s[0]) then [] else [s[0]]) + NonSpace(s[1..])
  }

  lemma {:induction false} NonSpaceTrimStart(s: string)
    ensures NonSpace(TrimStart(s)) == NonSpace(s)
  {
    if s != [] && IsSpace(s[0]) {
      NonSpaceTrimStart(s[1..]);
    }
  }

  lemma {:induction false} TrimStartAppend(a: string, b: string)
    ensures TrimStart(a + b) == if AllSpace(a) then TrimStart(b) else TrimStart(a) + b
  {
    if a == [] {
      assert a + b == b;
    } else {
      assert (a + b)[1..] == a[1..] + b;
      TrimStartAppend(a[1..], b);
      AllSpaceCons(a);
    }
  }

  /** Collapsing keeps every non-whitespace character, in order, and adds none. */
  lemma {:induction false} CollapseKeepsText(s: string)
    ensures NonSpace(CollapseWhitespace(s)) == NonSpace(s)
    decreases |s|
  {
    if s == [] {
    } else if IsSpace(s[0]) {
      var t := TrimStart(s[1..]);
      CollapseKeepsText(t);
      NonSpaceTrimStart(s[1..]);
      assert NonSpace(" " + CollapseWhitespace(t)) == NonSpace(CollapseWhitespace(t)) by {
        assert (" " + CollapseWhitespace(t))[1..] == CollapseWhitespace(t);
      }
    } else {
      CollapseKeepsText(s[1..]);
      assert ([s[0]] + CollapseWhitespace(s[1..]))[1..] == CollapseWhitespace(s[1..]);
    }
  }

  lemma {:induction false} NonSpaceAppend(a: string, b: string)
    ensures NonSpace(a + b) == NonSpace(a) + NonSpace(b)
  {
    if a == [] {
      assert a + b == b;
    } else {
      assert (a + b)[1..] == a[1..] + b;
      NonSpaceAppend(a[1..], b);
    }
  }

  /** A string has no non-whitespace character exactly when it is all whitespace. */
  lemma {:induction false} NonSpaceEmpty(s: string)
    ensures NonSpace(s) == [] <==> AllSpace(s)
  {
    if s != [] {
      AllSpaceCons(s);
      NonSpaceEmpty(s[1..]);
    }
  }

  lemma NonSpaceTrimEnd(s: string)
    ensures NonSpace(TrimEnd(s)) == NonSpace(s)
  {
    var m := |TrimEnd(s)|;
    TrimEndPrefix(s);
    assert s == s[..m] + s[m..];
    NonSpaceAppend(s[..m], s[m..]);
    NonSpaceEmpty(s[m..]);
  }

  /** `strip()` only removes whitespace: the text itself is kept, in order. */
  lemma StripKeepsText(s: string)
    ensures NonSpace(Strip(s)) == NonSpace(s)
  {
    NonSpaceTrimStart(s);
    NonSpaceTrimEnd(TrimStart(s));
  }

  /** A whole run of whitespace becomes exactly one space. */
  lemma CollapseRun(w: string)
    requires w != [] && AllSpace(w)
    ensures CollapseWhitespace(w) == " "
  {
    AllSpaceCons(w);
    TrimStartEmpty(w[1..]);
  }

  /** Collapsing is compositional: at a cut that does not split a whitespace run,
      the two halves collapse independently. With CollapseRun and the copying of
      a single non-whitespace character, this fixes the result on every string:
      each maximal run becomes one ' ', and all else is kept in order. */
  lemma {:induction false} CollapseAppend(a: string, b: string)
    requires a == [] || b == [] || !IsSpace(a[|a| - 1]) || !IsSpace(b[0])
    ensures CollapseWhitespace(a + b) == CollapseWhitespace(a) + CollapseWhitespace(b)
    decreases |a|, 2
  {
    if a == [] {
      assert a + b == b;
    } else if IsSpace(a[0]) {
      CollapseAppendRun(a, b);
    } else {
      assert (a + b)[1..] == a[1..] + b;
      CollapseAppend(a[1..], b);
    }
  }

  /** CollapseAppend when `a` starts with whitespace: its leading run is one
      match, whether or not it reaches the cut. */
  lemma {:induction false} CollapseAppendRun(a: string, b: string)
    requires a != [] && IsSpace(a[0])
    requires b == [] || !IsSpace(a[|a| - 1]) || !IsSpace(b[0])
    ensures CollapseWhitespace(a + b) == CollapseWhitespace(a) + CollapseWhitespace(b)
    decreases |a|, 1
  {
    TrimStartEmpty(a[1..]);
    if AllSpace(a[1..]) {
      AllSpaceCons(a);
      CollapseRunThen(a, b);
      CollapseRun(a);
    } else {
      CollapseAppendRunText(a, b);
    }
  }

  /** A run of whitespace followed by text collapses to one space and that text, collapsed. */
  lemma CollapseRunThen(w: string, b: string)
    requires w != [] && AllSpace(w)
    requires b == [] || !IsSpace(b[0])
    ensures CollapseWhitespace(w + b) == " " + CollapseWhitespace(b)
  {
    AllSpaceCons(w);
    var u := (w + b)[1..];
    assert u == w[1..] + b;
    TrimStartAppend(w[1..], b);
    assert TrimStart(u) == b;
    assert (w + b)[0] == w[0];
  }

  lemma {:induction false} CollapseAppendRunText(a: string, b: string)
    requires a != [] && IsSpace(a[0]) && !AllSpace(a[1..])
    requires b == [] || !IsSpace(a[|a| - 1]) || !IsSpace(b[0])
    ensures CollapseWhitespace(a + b) == CollapseWhitespace(a) + CollapseWhitespace(b)
    decreases |a|, 0
  {
    var t := TrimStart(a[1..]);
    CollapseLeadingRun(a, b);
    CollapseAppend(t, b);
    var ct, cb := CollapseWhitespace(t), CollapseWhitespace(b);
    assert " " + (ct + cb) == (" " + ct) + cb;
  }

  /** The leading run of `a`, which ends inside `a`, is one match of `a + b`. */
  lemma CollapseLeadingRun(a: string, b: string)
    requires a != [] && IsSpace(a[0]) && !AllSpace(a[1..])
    ensures var t := TrimStart(a[1..]);
      && t != [] && t[|t| - 1] == a[|a| - 1]
      && CollapseWhitespace(a + b) == " " + CollapseWhitespace(t + b)
  {
    var a' := a[1..];
    assert (a + b)[0] == a[0];
    assert (a + b)[1..] == a' + b;
    TrimStartAppend(a', b);
    TrimStartEmpty(a');
  }

  /** Collapsing does not trim: the result ends in a space exactly when the input
      ends in whitespace. */
  lemma {:induction false} CollapseLast(s: string)
    requires s != []
    ensures var r := CollapseWhitespace(s); IsSpace(r[|r| - 1]) <==> IsSpace(s[|s| - 1])
    decreases |s|
  {
    var r := CollapseWhitespace(s);
    if IsSpace(s[0]) {
      var t := TrimStart(s[1..]);
      if t == [] {
        TrimStartEmpty(s[1..]);
        if |s| > 1 { assert s[|s| - 1] == s[1..][|s| - 2]; }
      } else {
        CollapseLast(t);
        assert t[|t| - 1] == s[|s| - 1];
        assert r[|r| - 1] == CollapseWhitespace(t)[|CollapseWhitespace(t)| - 1];
      }
    } else if |s| > 1 {
      CollapseLast(s[1..]);
      assert r[|r| - 1] == CollapseWhitespace(s[1..])[|CollapseWhitespace(s[1..])| - 1];
    }
  }

  /** `collapse_whitespace` leaves a string unchanged exactly when it is already
      collapsed: only ' ' as whitespace and no two whitespace characters in a row. */
  lemma {:induction false} CollapseIdentityIff(s: string)
    ensures CollapseWhitespace(s) == s <==> Collapsed(s)
    decreases |s|
  {
    if Collapsed(s) && s != [] {
      assert Collapsed(s[1..]) by {
        forall i | 0 <= i < |s[1..]| ensures IsSpace(s[1..][i]) ==> s[1..][i] == ' ' {
          assert s[1..][i] == s[i + 1];
        }
        forall i | 0 <= i < |s[1..]| - 1 ensures !(IsSpace(s[1..][i]) && IsSpace(s[1..][i + 1])) {
          assert s[1..][i] == s[i + 1] && s[1..][i + 1] == s[i + 2];
        }
      }
      CollapseIdentityIff(s[1..]);
      if IsSpace(s[0]) {
        assert TrimStart(s[1..]) == s[1..] by {
          if |s| > 1 { assert !IsSpace(s[1]); }
        }
      }
    }
  }

  /** Collapsing twice is collapsing once. */
  lemma CollapseIdempotent(s: string)
    ensures CollapseWhitespace(CollapseWhitespace(s)) == CollapseWhitespace(s)
  {
    CollapseIdentityIff(CollapseWhitespace(s));
  }
}
