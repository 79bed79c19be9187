/**
 * `clean_string` (main.py:27-33): turns one half of a "Lastname, Firstname"
 * display name into the ASCII token used in an e-mail address. The steps are
 * Python's: lower-case, replace the four German letters ä ö ü ß by their
 * digraphs one table entry after the other, decompose with NFKD and drop
 * every non-ASCII character, strip surrounding whitespace.
 *
 * The Unicode database behind `str.lower` and NFKD is a parameter giving,
 * per character, its full lower-case mapping and its full compatibility
 * decomposition. Lower-casing is modelled as that mapping applied to each
 * character; Python's one context-dependent rule, Σ becoming final ς at the
 * end of a word, is not captured, and it cannot change the result here:
 * neither σ nor ς decomposes to anything ASCII, so both are dropped.
 * Dropping every non-ASCII character after NFKD makes the per-character
 * view of NFKD exact: canonical reordering only moves combining marks, and
 * those are never ASCII.
 */
module Normalize {
  import opened PyStr

  /**
   * The two tables of the Unicode database clean_string relies on: the full
   * lower-case mapping of each character and the full NFKD decomposition of
   * each character. Both may give several characters
   * (İ lower-cases to i followed by a combining dot above).
   */
  datatype UnicodeData = UnicodeData(lower: char -> string, nfkd: char -> string)

  predicate IsAscii(c: char)
  {
    c < '\U{80}'
  }

  predicate AllAscii(s: string)
  {
    forall k :: 0 <= k < |s| ==> IsAscii(s[k])
  }

  function AsciiLower(c: char): char
  {
    if 'A' <= c <= 'Z' then (c as int + 32) as char else c
  }

  /**
   * What the database says about ASCII: `lower` maps A-Z to a-z and leaves
   * the other ASCII characters alone, NFKD leaves every ASCII character alone.
   */
  ghost predicate AsciiAsUnicode(ucd: UnicodeData)
  {
    forall c: char :: IsAscii(c) ==> ucd.lower(c) == [AsciiLower(c)] && ucd.nfkd(c) == [c]
  }

  /** The capitals Ä Ö Ü ẞ lower-case to ä ö ü ß. */
  ghost predicate GermanCapitals(ucd: UnicodeData)
  {
    && ucd.lower('\U{C4}') == "\U{E4}"
    && ucd.lower('\U{D6}') == "\U{F6}"
    && ucd.lower('\U{DC}') == "\U{FC}"
    && ucd.lower('\U{1E9E}') == "\U{DF}"
  }

  /** Lower-casing the lower-case mapping of a character changes nothing. */
  ghost predicate LowerIsStable(ucd: UnicodeData)
  {
    forall c: char :: Lower(ucd.lower(c), ucd) == ucd.lower(c)
  }

  /** `s.lower()` as the lower-case mapping applied to each character (no final-sigma rule). */
  function Lower(s: string, ucd: UnicodeData): string
  {
    if |s| == 0 then "" else ucd.lower(s[0]) + Lower(s[1..], ucd)
  }

  lemma {:induction false} LowerAppend(a: string, b: string, ucd: UnicodeData)
    ensures Lower(a + b, ucd) == Lower(a, ucd) + Lower(b, ucd)
  {
    if |a| > 0 {
      LowerAppend(a[1..], b, ucd);
      assert (a + b)[1..] == a[1..] + b;
    } else {
      assert a + b == b;
    }
  }

  /** Lower-casing a lower-cased text changes nothing more. */
  lemma {:induction false} LowerIdempotent(s: string, ucd: UnicodeData)
    requires LowerIsStable(ucd)
    ensures Lower(Lower(s, ucd), ucd) == Lower(s, ucd)
  {
    if |s| > 0 {
      LowerIdempotent(s[1..], ucd);
      LowerAppend(ucd.lower(s[0]), Lower(s[1..], ucd), ucd);
    }
  }

  /** An ASCII text without capitals is its own lower-case form. */
  lemma {:induction false} LowerOfAsciiToken(s: string, ucd: UnicodeData)
    requires AsciiAsUnicode(ucd)
    requires AllAscii(s) && forall k :: 0 <= k < |s| ==> !('A' <= s[k] <= 'Z')
    ensures Lower(s, ucd) == s
  {
    if |s| > 0 {
      LowerOfAsciiToken(s[1..], ucd);
      assert ucd.lower(s[0]) == [s[0]];
      assert [s[0]] + s[1..] == s;
    }
  }

  /** The replacement table of main.py:29, in its iteration order. */
  const Replacements: seq<(char, string)> :=
    [('\U{E4}', "ae"), ('\U{F6}', "oe"), ('\U{FC}', "ue"), ('\U{DF}', "ss")]

  /** `s.replace(k, v)` for a one-character `k`. */
  function ReplaceAll(s: string, k: char, v: string): string
  {
    if |s| == 0 then "" else (if s[0] == k then v else [s[0]]) + ReplaceAll(s[1..], k, v)
  }

  /** What the first `n` table entries make of one character. */
  function DigraphUpTo(c: char, n: nat): string
    requires n <= |Replacements|
  {
    if n == 0 then [c]
    else if c == Replacements[n - 1].0 then Replacements[n - 1].1
    else DigraphUpTo(c, n - 1)
  }

  /** Every character of `s` treated by the first `n` table entries. */
  function ReplacedUpTo(s: string, n: nat): string
    requires n <= |Replacements|
  {
    if |s| == 0 then "" else DigraphUpTo(s[0], n) + ReplacedUpTo(s[1..], n)
  }

  /** The digraph the table gives a character, or the character itself. */
  function Digraph(c: char): string
  {
    if c == '\U{E4}' then "ae"
    else if c == '\U{F6}' then "oe"
    else if c == '\U{FC}' then "ue"
    else if c == '\U{DF}' then "ss"
    else [c]
  }

  /**
   * The replacement as one simultaneous pass: ä ö ü ß become ae oe ue ss and
   * every other character stays.
   */
  function Transliterate(s: string): string
  {
    if |s| == 0 then "" else Digraph(s[0]) + Transliterate(s[1..])
  }

  /** Applying the whole table character by character is the simultaneous pass. */
  lemma {:induction false} ReplacedUpToAll(s: string)
    ensures ReplacedUpTo(s, |Replacements|) == Transliterate(s)
  {
    if |s| > 0 {
      ReplacedUpToAll(s[1..]);
      var c := s[0];
      assert DigraphUpTo(c, 1) == if c == '\U{E4}' then "ae" else [c];
      assert DigraphUpTo(c, 2) == if c == '\U{F6}' then "oe" else DigraphUpTo(c, 1);
      assert DigraphUpTo(c, 3) == if c == '\U{FC}' then "ue" else DigraphUpTo(c, 2);
      assert DigraphUpTo(c, 4) == if c == '\U{DF}' then "ss" else DigraphUpTo(c, 3);
    }
  }

  lemma {:induction false} ReplaceAllAppend(a: string, b: string, k: char, v: string)
    ensures ReplaceAll(a + b, k, v) == ReplaceAll(a, k, v) + ReplaceAll(b, k, v)
  {
    if |a| > 0 {
      ReplaceAllAppend(a[1..], b, k, v);
      assert (a + b)[1..] == a[1..] + b;
    } else {
      assert a + b == b;
    }
  }

  lemma {:induction false} ReplaceAllAbsent(s: string, k: char, v: string)
    requires k !in s
    ensures ReplaceAll(s, k, v) == s
  {
    if |s| > 0 {
      ReplaceAllAbsent(s[1..], k, v);
      assert [s[0]] + s[1..] == s;
    }
  }

  lemma {:induction false} ReplacedUpToZero(s: string)
    ensures ReplacedUpTo(s, 0) == s
  {
    if |s| > 0 {
      ReplacedUpToZero(s[1..]);
      assert [s[0]] + s[1..] == s;
    }
  }

  /** One more `replace` call takes the first `n` entries to the first `n + 1`. */
  lemma {:induction false} ReplaceStep(s: string, n: nat)
    requires n < |Replacements|
    ensures ReplaceAll(ReplacedUpTo(s, n), Replacements[n].0, Replacements[n].1) == ReplacedUpTo(s, n + 1)
  {
    if |s| > 0 {
      var (k, v) := Replacements[n];
      var d := DigraphUpTo(s[0], n);
      ReplaceStep(s[1..], n);
      ReplaceAllAppend(d, ReplacedUpTo(s[1..], n), k, v);
      if d == [s[0]] {
        assert ReplaceAll(d, k, v) == (if s[0] == k then v else [s[0]]) + ReplaceAll("", k, v);
        DigraphStep(s[0], n);
      } else {
        DigraphStep(s[0], n);
        ReplaceAllAbsent(d, k, v);
      }
    }
  }

  /**
   * A character the first `n` entries left alone meets entry `n` as itself;
   * one they replaced became an ASCII digraph that entry `n` cannot touch.
   */
  lemma {:induction false} DigraphStep(c: char, n: nat)
    requires n < |Replacements|
    ensures DigraphUpTo(c, n) == [c] || (AllAscii(DigraphUpTo(c, n)) && |DigraphUpTo(c, n)| == 2)
    ensures DigraphUpTo(c, n) == [c] ==>
      DigraphUpTo(c, n + 1) == if c == Replacements[n].0 then Replacements[n].1 else [c]
    ensures DigraphUpTo(c, n) != [c] ==>
      DigraphUpTo(c, n + 1) == DigraphUpTo(c, n) && Replacements[n].0 !in DigraphUpTo(c, n)
  {
    if n > 0 {
      DigraphStep(c, n - 1);
    }
  }

  /**
   * `ReplaceUmlauts` is the `for k, v in replacements.items()` loop of
   * clean_string: one `replace` per table entry, in table order. It has the
   * same effect as replacing every character at once.
   */
  method ReplaceUmlauts(text: string) returns (r: string)
    ensures r == Transliterate(text)
  {
    r := text;
    ReplacedUpToZero(text);
    var i := 0;
    while i < |Replacements|
      invariant 0 <= i <= |Replacements|
      invariant r == ReplacedUpTo(text, i)
    {
      var (k, v) := Replacements[i];
      ReplaceStep(text, i);
      r := ReplaceAll(r, k, v);
      i := i + 1;
    }
    ReplacedUpToAll(text);
  }

  /** After the replacement none of ä ö ü ß is left, and every other character is kept. */
  lemma {:induction false} TransliterateRemovesUmlauts(s: string)
    ensures forall k :: 0 <= k < |Transliterate(s)| ==>
      Transliterate(s)[k] !in {'\U{E4}', '\U{F6}', '\U{FC}', '\U{DF}'}
    ensures (forall k :: 0 <= k < |s| ==> s[k] !in {'\U{E4}', '\U{F6}', '\U{FC}', '\U{DF}'}) ==>
      Transliterate(s) == s
  {
    if |s| > 0 {
      TransliterateRemovesUmlauts(s[1..]);
      assert [s[0]] + s[1..] == s;
    }
  }

  /** `.encode('ASCII', 'ignore').decode()`: the ASCII characters, in order. */
  function AsciiOnly(s: string): (r: string)
    ensures AllAscii(r)
    ensures |r| <= |s|
  {
    if |s| == 0 then ""
    else (if IsAscii(s[0]) then [s[0]] else "") + AsciiOnly(s[1..])
  }

  /** NFKD followed by dropping whatever is not ASCII. */
  function AsciiFold(s: string, nfkd: char -> string): (r: string)
    ensures AllAscii(r)
  {
    if |s| == 0 then "" else AsciiOnly(nfkd(s[0])) + AsciiFold(s[1..], nfkd)
  }

  /** The value clean_string returns for `text`. */
  function Cleaned(text: string, ucd: UnicodeData): string
  {
    Strip(AsciiFold(Transliterate(Lower(text, ucd)), ucd.nfkd))
  }

  /**
   * clean_string as a method: the `for` loop over the table is
   * `ReplaceUmlauts`. The result is pure ASCII and carries no whitespace at
   * either end.
   */
  method CleanString(text: string, ucd: UnicodeData) returns (r: string)
    ensures r == Cleaned(text, ucd)
    ensures AllAscii(r) && NoEdgeSpace(r)
  {
    var lowered := Lower(text, ucd);
    var replaced := ReplaceUmlauts(lowered);
    var folded := AsciiFold(replaced, ucd.nfkd);
    r := Strip(folded);
    CleanedIsTrimmedAscii(text, ucd);
  }

  /** clean_string yields ASCII only, with no whitespace at either end. */
  lemma CleanedIsTrimmedAscii(text: string, ucd: UnicodeData)
    ensures AllAscii(Cleaned(text, ucd))
    ensures NoEdgeSpace(Cleaned(text, ucd))
  {
    var f := AsciiFold(Transliterate(Lower(text, ucd)), ucd.nfkd);
    StripIsMaximalTrim(f);
    var i, j :| 0 <= i <= j <= |f| && Strip(f) == f[i..j];
    assert forall k :: 0 <= k < j - i ==> Strip(f)[k] == f[i + k];
  }

  /**
   * Lower-casing comes first, so a text is cleaned exactly like its
   * lower-case form.
   */
  lemma CleanedIgnoresCase(text: string, ucd: UnicodeData)
    requires LowerIsStable(ucd)
    ensures Cleaned(text, ucd) == Cleaned(Lower(text, ucd), ucd)
  {
    LowerIdempotent(text, ucd);
  }

  /** Because lower-casing comes first, the capitals Ä Ö Ü ẞ also become ae oe ue ss. */
  lemma CapitalsBecomeDigraphs(ucd: UnicodeData)
    requires GermanCapitals(ucd)
    ensures Transliterate(Lower("\U{C4}", ucd)) == "ae"
    ensures Transliterate(Lower("\U{D6}", ucd)) == "oe"
    ensures Transliterate(Lower("\U{DC}", ucd)) == "ue"
    ensures Transliterate(Lower("\U{1E9E}", ucd)) == "ss"
  {
    assert Lower("\U{C4}", ucd) == "\U{E4}";
    assert Lower("\U{D6}", ucd) == "\U{F6}";
    assert Lower("\U{DC}", ucd) == "\U{FC}";
    assert Lower("\U{1E9E}", ucd) == "\U{DF}";
  }

  lemma {:induction false} AsciiFoldOfAscii(s: string, ucd: UnicodeData)
    requires AsciiAsUnicode(ucd)
    requires AllAscii(s)
    ensures AsciiFold(s, ucd.nfkd) == s
  {
    if |s| > 0 {
      AsciiFoldOfAscii(s[1..], ucd);
      assert ucd.nfkd(s[0]) == [s[0]];
      assert [s[0]] + s[1..] == s;
    }
  }

  /**
   * A token that is already ASCII, lower-case and stripped comes back
   * unchanged.
   */
  lemma CleanedFixesTokens(s: string, ucd: UnicodeData)
    requires AsciiAsUnicode(ucd)
    requires AllAscii(s) && NoEdgeSpace(s)
    requires forall k :: 0 <= k < |s| ==> !('A' <= s[k] <= 'Z')
    ensures Cleaned(s, ucd) == s
  {
    LowerOfAsciiToken(s, ucd);
    TransliterateRemovesUmlauts(s);
    AsciiFoldOfAscii(s, ucd);
    StripOfStripped(s);
  }

  /**
   * Genuine entries of the lower-case mapping: ASCII, the Latin-1 capitals,
   * Latin Extended-A (with İ, whose lower-case form is two characters), ẞ and
   * the Kelvin sign. Every other character maps to itself here.
   */
  function SampleLower(c: char): string
  {
    if 'A' <= c <= 'Z' || ('\U{C0}' <= c <= '\U{DE}' && c != '\U{D7}') then [(c as int + 32) as char]
    else if c == '\U{130}' then "i\U{307}"
    else if ('\U{100}' <= c <= '\U{137}' || '\U{14A}' <= c <= '\U{177}') && c as int % 2 == 0 then [(c as int + 1) as char]
    else if ('\U{139}' <= c <= '\U{148}' || '\U{179}' <= c <= '\U{17E}') && c as int % 2 == 1 then [(c as int + 1) as char]
    else if c == '\U{178}' then "\U{FF}"
    else if c == '\U{1E9E}' then "\U{DF}"
    else if c == '\U{212A}' then "k"
    else [c]
  }

  /** Genuine NFKD entries, enough for worked examples; every other character maps to itself here. */
  function SampleNfkd(c: char): string
  {
    if c == '\U{E9}' then "e\U{301}"        // é: e + combining acute
    else if c == '\U{10D}' then "c\U{30C}"  // č: c + combining caron
    else if c == '\U{FB01}' then "fi"       // ﬁ ligature
    else if c == '\U{210C}' then "H"        // ℌ black-letter capital H
    else [c]
  }

  const SampleUnicode: UnicodeData := UnicodeData(SampleLower, SampleNfkd)

  /** The sample tables meet the facts the lemmas above assume of the database. */
  lemma SampleUnicodeIsConsistent()
    ensures AsciiAsUnicode(SampleUnicode)
    ensures GermanCapitals(SampleUnicode)
    ensures LowerIsStable(SampleUnicode)
  {
    SampleAsciiAsUnicode();
    forall c: char ensures Lower(SampleLower(c), SampleUnicode) == SampleLower(c) {
      SampleLowerIsStable(c);
    }
  }

  lemma SampleAsciiAsUnicode()
    ensures AsciiAsUnicode(SampleUnicode)
  {
    forall c: char | IsAscii(c) ensures SampleLower(c) == [AsciiLower(c)] && SampleNfkd(c) == [c] {
    }
  }

  lemma LowerSingle(c: char, ucd: UnicodeData)
    ensures Lower([c], ucd) == ucd.lower(c)
  {
    assert [c][1..] == "";
  }

  /** A sample lower-case form is one character that lower-cases to itself, or i followed by a combining dot. */
  lemma SampleLowerIsStable(c: char)
    ensures Lower(SampleLower(c), SampleUnicode) == SampleLower(c)
  {
    var l := SampleLower(c);
    if l == "i\U{307}" {
      LowerAppend("i", "\U{307}", SampleUnicode);
      LowerSingle('i', SampleUnicode);
      LowerSingle('\U{307}', SampleUnicode);
      assert "i" + "\U{307}" == l;
    } else {
      assert |l| == 1;
      SampleLowerOfLower(c);
      LowerSingle(l[0], SampleUnicode);
      assert [l[0]] == l;
    }
  }

  lemma SampleLowerOfLower(c: char)
    requires SampleLower(c) != "i\U{307}"
    ensures |SampleLower(c)| == 1 && SampleLower(SampleLower(c)[0]) == SampleLower(c)
  {
  }

  lemma {:induction false} TransliterateAppend(a: string, b: string)
    ensures Transliterate(a + b) == Transliterate(a) + Transliterate(b)
  {
    if |a| > 0 {
      TransliterateAppend(a[1..], b);
      assert (a + b)[1..] == a[1..] + b;
    } else {
      assert a + b == b;
    }
  }

  /** "MÜLLER" cleans to "mueller": the capital Ü is lower-cased before the table applies. */
  lemma CleanedCapitalUmlaut(name: string)
    requires name == "M\U{DC}LLER"
    ensures Cleaned(name, SampleUnicode) == "mueller"
  {
    var lowered := Lower(name, SampleUnicode);
    LowerMueller(name);
    var replaced := Transliterate(lowered);
    TransliterateMueller(lowered);
    SampleUnicodeIsConsistent();
    AsciiFoldOfAscii(replaced, SampleUnicode);
    StripOfStripped(replaced);
  }

  lemma LowerMueller(name: string)
    requires name == "M\U{DC}LLER"
    ensures Lower(name, SampleUnicode) == "m\U{FC}ller"
  {
    var cs := ['M', '\U{DC}', 'L', 'L', 'E', 'R'];
    assert name == cs;
    forall k | 0 <= k < |cs| ensures Lower([cs[k]], SampleUnicode) == SampleLower(cs[k]) {
      LowerSingle(cs[k], SampleUnicode);
    }
    LowerAppend([cs[0]], cs[1..], SampleUnicode);
    LowerAppend([cs[1]], cs[2..], SampleUnicode);
    LowerAppend([cs[2]], cs[3..], SampleUnicode);
    LowerAppend([cs[3]], cs[4..], SampleUnicode);
    LowerAppend([cs[4]], cs[5..], SampleUnicode);
    assert cs[5..] == [cs[5]];
  }

  lemma TransliterateMueller(lowered: string)
    requires lowered == "m\U{FC}ller"
    ensures Transliterate(lowered) == "mueller"
  {
    TransliterateAppend("m", "\U{FC}");
    TransliterateAppend("m" + "\U{FC}", "ller");
    TransliterateRemovesUmlauts("ller");
    assert Transliterate("m") == "m";
    assert Transliterate("\U{FC}") == "ue";
    assert lowered == ("m" + "\U{FC}") + "ller";
  }

  /** "Č" cleans to "c": it is lower-cased to č, whose caron NFKD splits off. */
  lemma CleanedCaron()
    ensures Cleaned("\U{10C}", SampleUnicode) == "c"
  {
    LowerSingle('\U{10C}', SampleUnicode);
    assert SampleLower('\U{10C}') == "\U{10D}";
    assert Transliterate("\U{10D}") == "\U{10D}";
    assert AsciiOnly("c\U{30C}") == "c";
    assert AsciiFold("\U{10D}", SampleNfkd) == "c";
    StripOfStripped("c");
  }

  /**
   * clean_string is not idempotent: NFKD can produce a capital ASCII letter
   * after the lower-casing step (ℌ has no lower-case form and decomposes to H),
   * and a second pass lower-cases it.
   */
  lemma CleanedNotIdempotent()
    ensures Cleaned("\U{210C}", SampleUnicode) == "H"
    ensures Cleaned(Cleaned("\U{210C}", SampleUnicode), SampleUnicode) == "h"
  {
    assert Lower("\U{210C}", SampleUnicode) == "\U{210C}";
    assert Transliterate("\U{210C}") == "\U{210C}";
    assert AsciiFold("\U{210C}", SampleNfkd) == "H";
    assert Lower("H", SampleUnicode) == "h";
    assert Transliterate("h") == "h";
    assert AsciiFold("h", SampleNfkd) == "h";
  }
}
