/** GetAbbreviation of src/Neat.Core/Common/StringExtensions.cs, over ASCII:
    the regular expression (?=[A-Z]) cuts before every letter A to Z, and
    ToUpper maps a to z onto A to Z. */
module StringExtensions {

  predicate IsUpper(c: char) { 'A' <= c <= 'Z' }

  function ToUpperChar(c: char): char
  {
    if 'a' <= c <= 'z' then (c as int - 32) as char else c
  }

  function ToUpper(s: string): (r: string)
    ensures |r| == |s| && forall i :: 0 <= i < |s| ==> r[i] == ToUpperChar(s[i])
  {
    if |s| == 0 then "" else [ToUpperChar(s[0])] + ToUpper(s[1..])
  }

  /** Char.IsWhiteSpace restricted to the Latin-1 range. */
  predicate IsWhiteSpace(c: char)
  {
    c == ' ' || '\t' <= c <= '\r' || c == '\U{0085}' || c == '\U{00A0}'
  }

  predicate IsNullOrWhiteSpace(s: string)
  {
    forall i :: 0 <= i < |s| ==> IsWhiteSpace(s[i])
  }

  /** Regex.Split(value, "(?=[A-Z])"): a cut before every upper-case letter,
      so a leading upper-case letter produces an empty first piece. */
  function Split(s: string): (r: seq<string>)
    ensures |r| >= 1
  {
    if |s| == 0 then [""]
    else
      var init := Split(s[..|s| - 1]);
      var c := s[|s| - 1];
      if IsUpper(c) then init + [[c]]
      else init[..|init| - 1] + [init[|init| - 1] + [c]]
  }

  /** Where(x => x.Length > 0).Select(x => x[0]), joined. */
  function FirstLetters(pieces: seq<string>): string
  {
    if |pieces| == 0 then ""
    else
      var last := pieces[|pieces| - 1];
      FirstLetters(pieces[..|pieces| - 1]) + (if |last| > 0 then [last[0]] else "")
  }

  function GetAbbreviation(value: string): string
  {
    if |value| == 0 then ""
    else
      var letters := FirstLetters(Split(value));
      var result := if IsNullOrWhiteSpace(letters) then [value[0]] else letters;
      ToUpper(result)
  }

  /** The upper-case letters of a string, in order. */
  function UpperLetters(s: string): (r: string)
    ensures forall i :: 0 <= i < |r| ==> IsUpper(r[i])
  {
    if |s| == 0 then ""
    else UpperLetters(s[..|s| - 1]) + (if IsUpper(s[|s| - 1]) then [s[|s| - 1]] else "")
  }

  /** Splitting a non-empty string leaves a non-empty last piece, and the
      first letters of the pieces are the first character followed by every
      upper-case letter after it. */
  lemma {:induction false} SplitLetters(s: string)
    requires |s| >= 1
    ensures var p := Split(s); |p[|p| - 1]| > 0
    ensures FirstLetters(Split(s)) == [s[0]] + UpperLetters(s[1..])
  {
    var init := Split(s[..|s| - 1]);
    var c := s[|s| - 1];
    var p := Split(s);
    if |s| == 1 {
      assert init == [""];
      assert s[1..] == "";
      if IsUpper(c) {
        assert p == ["", [c]];
        assert p[..1] == [""];
        assert FirstLetters([""]) == "" by {
          assert [""][..0] == [];
        }
      } else {
        assert init[..0] == [];
        assert init[0] + [c] == [c];
        assert p == [[c]];
        assert p[..0] == [];
      }
    } else {
      var t := s[..|s| - 1];
      SplitLetters(t);
      assert t[0] == s[0];
      assert s[1..][..|s[1..]| - 1] == t[1..];
      if IsUpper(c) {
        assert p[..|p| - 1] == init;
      } else {
        var last := init[|init| - 1];
        assert p[..|p| - 1] == init[..|init| - 1];
        assert p[|p| - 1] == last + [c];
        assert (last + [c])[0] == last[0];
      }
    }
  }

  /** The abbreviation is the first character and every later upper-case
      letter, upper-cased; the whitespace fallback never changes it. */
  lemma AbbreviationIsFirstAndCapitals(value: string)
    requires |value| > 0
    ensures GetAbbreviation(value) == ToUpper([value[0]] + UpperLetters(value[1..]))
  {
    SplitLetters(value);
    var letters := FirstLetters(Split(value));
    assert |letters| > 1 ==> IsUpper(letters[1]) && !IsWhiteSpace(letters[1]);
    assert IsNullOrWhiteSpace(letters) ==> letters == [value[0]];
  }

  /** Null or empty input gives the empty string; any other input gives a
      non-empty one, as long as its upper-case letters plus one more when it
      does not start with one. */
  lemma AbbreviationLength(value: string)
    ensures |value| == 0 ==> GetAbbreviation(value) == ""
    ensures |value| > 0 ==> |GetAbbreviation(value)| == |UpperLetters(value)| + (if IsUpper(value[0]) then 0 else 1)
    ensures |value| > 0 ==> GetAbbreviation(value) != ""
  {
    if |value| > 0 {
      AbbreviationIsFirstAndCapitals(value);
      UpperLettersFront(value);
    }
  }

  lemma {:induction false} UpperLettersFront(s: string)
    requires |s| > 0
    ensures UpperLetters(s) == (if IsUpper(s[0]) then [s[0]] else "") + UpperLetters(s[1..])
  {
    if |s| > 1 {
      UpperLettersFront(s[..|s| - 1]);
      assert s[..|s| - 1][1..] == s[1..][..|s[1..]| - 1];
    } else {
      assert s[..0] == "";
    }
  }

  /** The inputs of the string experiments: "Input" gives "I". */
  lemma AbbreviationOfInput(value: string)
    requires value == "Input"
    ensures GetAbbreviation(value) == "I"
  {
    assert UpperLetters(value[1..]) == "" by {
      assert value[1..] == "nput";
      NoUpper("nput");
    }
    AbbreviationOfNoCapital(value);
  }

  /** A string with no upper-case letter after its first character
      abbreviates to that character, upper-cased. */
  lemma AbbreviationOfNoCapital(value: string)
    requires |value| > 0 && UpperLetters(value[1..]) == ""
    ensures GetAbbreviation(value) == [ToUpperChar(value[0])]
  {
    AbbreviationIsFirstAndCapitals(value);
    assert [value[0]] + UpperLetters(value[1..]) == [value[0]];
  }

  /** A string with one upper-case letter after its first character
      abbreviates to its first character, upper-cased, and that letter. */
  lemma AbbreviationOfOneCapital(value: string, capital: char)
    requires |value| > 0 && UpperLetters(value[1..]) == [capital]
    ensures GetAbbreviation(value) == [ToUpperChar(value[0]), capital]
  {
    AbbreviationIsFirstAndCapitals(value);
    assert IsUpper(capital);
  }

  lemma CapitalsOfMultipleWords(value: string)
    requires value == "MultipleWords"
    ensures UpperLetters(value[1..]) == "W"
  {
    var a, b := value[1..8], value[8..];
    assert value[1..] == a + b;
    NoUpper(a);
    UpperLettersFront(b);
    NoUpper(b[1..]);
    UpperLettersAppend(a, b);
  }

  /** "MultipleWords" gives "MW". */
  lemma AbbreviationOfMultipleWords(value: string)
    requires value == "MultipleWords"
    ensures GetAbbreviation(value) == "MW"
  {
    CapitalsOfMultipleWords(value);
    AbbreviationOfOneCapital(value, 'W');
  }

  lemma CapitalsOfFirstSmall(value: string)
    requires value == "firstSmall"
    ensures UpperLetters(value[1..]) == "S"
  {
    var a, b := value[1..5], value[5..];
    assert value[1..] == a + b;
    NoUpper(a);
    UpperLettersFront(b);
    NoUpper(b[1..]);
    UpperLettersAppend(a, b);
  }

  /** "firstSmall" gives "FS": a lower-case first letter is upper-cased. */
  lemma AbbreviationOfFirstSmall(value: string)
    requires value == "firstSmall"
    ensures GetAbbreviation(value) == "FS"
  {
    CapitalsOfFirstSmall(value);
    AbbreviationOfOneCapital(value, 'S');
  }

  /** "allsmall" gives "A". */
  lemma AbbreviationOfAllSmall(value: string)
    requires value == "allsmall"
    ensures GetAbbreviation(value) == "A"
  {
    assert UpperLetters(value[1..]) == "" by {
      assert value[1..] == "llsmall";
      NoUpper("llsmall");
    }
    AbbreviationOfNoCapital(value);
  }

  lemma {:induction false} UpperLettersAppend(a: string, b: string)
    ensures UpperLetters(a + b) == UpperLetters(a) + UpperLetters(b)
  {
    if |b| == 0 {
      assert a + b == a;
    } else {
      assert (a + b)[..|a + b| - 1] == a + b[..|b| - 1];
      UpperLettersAppend(a, b[..|b| - 1]);
    }
  }

  lemma {:induction false} NoUpper(s: string)
    requires forall i :: 0 <= i < |s| ==> !IsUpper(s[i])
    ensures UpperLetters(s) == ""
  {
    if |s| > 0 {
      NoUpper(s[..|s| - 1]);
    }
  }
}
