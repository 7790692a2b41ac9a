/** The cleaner pipelines of text/cleaners.py. `convert_to_ascii` (unidecode)
    and the eSpeak subprocess are outside the model: each pipeline takes them
    as functions, `toAscii` from raw text to ASCII text and `espeak` from the
    text handed to eSpeak to its decoded standard output. */
module Cleaners {
  import opened TextChars
  import opened Lowercase
  import opened Whitespace
  import opened Abbreviations

  // ---------------------------------------------------------------------------
  // Lowercasing and collapsing commute

  lemma {:induction false} LowerTrimStart(s: string)
    ensures TrimStart(Lower(s)) == Lower(TrimStart(s))
  {
    if s != [] {
      assert Lower(s)[1..] == Lower(s[1..]);
      if IsSpace(s[0]) {
        LowerTrimStart(s[1..]);
      }
    }
  }

  /** Lowercasing keeps whitespace where it is and maps ' ' to itself, so it
      does not matter whether whitespace is collapsed before or after it. */
  lemma {:induction false} LowerCollapse(s: string)
    ensures CollapseWhitespace(Lower(s)) == Lower(CollapseWhitespace(s))
    decreases |s|
  {
    if s != [] {
      var l := Lower(s);
      assert l[1..] == Lower(s[1..]);
      if IsSpace(s[0]) {
        var t := TrimStart(s[1..]);
        LowerTrimStart(s[1..]);
        LowerCollapse(t);
        LowerAppend(" ", CollapseWhitespace(t));
        assert Lower(" ") == " ";
      } else {
        LowerCollapse(s[1..]);
        LowerAppend([s[0]], CollapseWhitespace(s[1..]));
        assert Lower([s[0]]) == [LowerChar(s[0])];
      }
    }
  }

  // ---------------------------------------------------------------------------
  // basic_cleaners and transliteration_cleaners

  /** `basic_cleaners`: lowercase, then collapse whitespace. The two steps
      commute, and the result is lower-case and collapsed. */
  function BasicCleaners(s: string): (r: string)
    ensures NoUpper(r) && Collapsed(r)
    ensures r == Lower(CollapseWhitespace(s))
  {
    LowerCollapse(s);
    CollapseWhitespace(Lower(s))
  }

  /** Cleaning already cleaned text changes nothing. */
  lemma BasicIdempotent(s: string)
    ensures BasicCleaners(BasicCleaners(s)) == BasicCleaners(s)
  {
    var r := BasicCleaners(s);
    LowerIdentity(r);
    CollapseIdentityIff(r);
  }

  /** `basic_cleaners` keeps the text: its non-whitespace characters are the
      input's, in order, lowercased. */
  lemma BasicKeepsText(s: string)
    ensures NonSpace(BasicCleaners(s)) == NonSpace(Lower(s))
  {
    CollapseKeepsText(Lower(s));
  }

  /** `transliteration_cleaners`: `basic_cleaners` applied to the transliterated text. */
  function TransliterationCleaners(toAscii: string -> string, s: string): (r: string)
    ensures r == BasicCleaners(toAscii(s))
    ensures NoUpper(r) && Collapsed(r)
  {
    CollapseWhitespace(Lower(toAscii(s)))
  }

  // ---------------------------------------------------------------------------
  // english_cleaners and english_cleaners2

  /** The text handed to eSpeak: transliterated, lowercased, abbreviations
      expanded. It is still lower-case, it has no more `.` than the lowercased
      text, and text without `.` reaches eSpeak only lowercased. */
  function PhonemizerInput(toAscii: string -> string, s: string): (t: string)
    ensures NoUpper(t)
    ensures Count('.', t) <= Count('.', toAscii(s))
    ensures '.' !in toAscii(s) ==> t == Lower(toAscii(s))
  {
    LowerDots(toAscii(s));
    ExpandAbbreviations(Lower(toAscii(s)))
  }

  /** Lowercasing neither adds nor removes a `.`. */
  lemma {:induction false} LowerDots(s: string)
    ensures Count('.', Lower(s)) == Count('.', s)
  {
    if s != [] {
      assert Lower(s)[1..] == Lower(s[1..]);
      LowerDots(s[1..]);
    }
  }

  /** Lines 96 and 98 of both English pipelines: strip eSpeak's output, then
      collapse its whitespace. The result is collapsed, has no whitespace at
      either end, keeps the phonemes' text in order, and is empty exactly when
      eSpeak printed only whitespace. */
  function CleanPhonemes(p: string): (r: string)
    ensures Collapsed(r)
    ensures Trimmed(r)
    ensures NonSpace(r) == NonSpace(p)
    ensures r == [] <==> AllSpace(p)
  {
    var q := Strip(p);
    StripEmpty(p);
    StripKeepsText(p);
    CollapseKeepsText(q);
    assert q != [] ==> Trimmed(CollapseWhitespace(q)) by {
      if q != [] { CollapseLast(q); }
    }
    CollapseWhitespace(q)
  }

  /** `english_cleaners`. */
  function EnglishCleaners(toAscii: string -> string, espeak: string -> string, s: string): (r: string)
    ensures Collapsed(r)
    ensures Trimmed(r)
    ensures NonSpace(r) == NonSpace(espeak(PhonemizerInput(toAscii, s)))
  {
    CleanPhonemes(espeak(PhonemizerInput(toAscii, s)))
  }

  /** `english_cleaners2`: the same steps as `english_cleaners`, so the same
      result on every input for the same transliteration and eSpeak. */
  function EnglishCleaners2(toAscii: string -> string, espeak: string -> string, s: string): (r: string)
    ensures r == EnglishCleaners(toAscii, espeak, s)
  {
    CleanPhonemes(espeak(PhonemizerInput(toAscii, s)))
  }
}
