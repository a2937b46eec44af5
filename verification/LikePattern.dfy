/**
 "Contains" search patterns (`src/prisma8/like.ts`) against the matching rules of LIKE with
 the default escape character (section 9.7.1 of the PostgreSQL manual). ILIKE compares
 characters after folding their case; `fold` stands for that folding.
 */
module LikePattern {

  predicate IsSpecial(c: char) {
    c == '\\' || c == '%' || c == '_'
  }

  /** `text.replace(/[\\%_]/g, (c) => '\\' + c)`. */
  function Escape(text: string): string {
    if text == "" then ""
    else (if IsSpecial(text[0]) then ['\\', text[0]] else [text[0]]) + Escape(text[1..])
  }

  function ContainsPattern(text: string): string {
    "%" + Escape(text) + "%"
  }

  /** A pattern that ends in a lone escape character is an error; every other one is accepted. */
  predicate WellFormed(pattern: string) {
    if pattern == "" then true
    else if pattern[0] == '\\' then |pattern| >= 2 && WellFormed(pattern[2..])
    else WellFormed(pattern[1..])
  }

  ghost predicate Matches(fold: char -> char, pattern: string, s: string)
    requires WellFormed(pattern)
    decreases |pattern|
  {
    if pattern == "" then s == ""
    else if pattern[0] == '%' then
      exists k :: 0 <= k <= |s| && Matches(fold, pattern[1..], s[k..])
    else if pattern[0] == '\\' then
      s != "" && fold(pattern[1]) == fold(s[0]) && Matches(fold, pattern[2..], s[1..])
    else if pattern[0] == '_' then
      s != "" && Matches(fold, pattern[1..], s[1..])
    else
      s != "" && fold(pattern[0]) == fold(s[0]) && Matches(fold, pattern[1..], s[1..])
  }

  /** `text` at the start of `s`, character for character, none of them special. */
  ghost predicate StartsWith(fold: char -> char, s: string, text: string) {
    |text| <= |s| && forall i :: 0 <= i < |text| ==> fold(s[i]) == fold(text[i])
  }

  ghost predicate Contains(fold: char -> char, s: string, text: string) {
    exists k :: 0 <= k <= |s| && StartsWith(fold, s[k..], text)
  }

  lemma {:induction false} EscapedPrefix(fold: char -> char, text: string, s: string)
    ensures WellFormed(Escape(text) + "%")
    ensures Matches(fold, Escape(text) + "%", s) <==> StartsWith(fold, s, text)
  {
    var pattern := Escape(text) + "%";
    if text == "" {
      assert pattern == "%" && pattern[1..] == "";
      assert s[|s|..] == "";
    } else {
      var rest := Escape(text[1..]) + "%";
      assert pattern[(if IsSpecial(text[0]) then 2 else 1)..] == rest;
      assert WellFormed(rest) by {
        EscapedPrefix(fold, text[1..], s);
      }
      if s != "" {
        EscapedPrefix(fold, text[1..], s[1..]);
        assert StartsWith(fold, s, text) <==> fold(s[0]) == fold(text[0]) && StartsWith(fold, s[1..], text[1..]) by {
          StartsWithStep(fold, s, text);
        }
      }
    }
  }

  lemma StartsWithStep(fold: char -> char, s: string, text: string)
    requires s != "" && text != ""
    ensures StartsWith(fold, s, text) <==> fold(s[0]) == fold(text[0]) && StartsWith(fold, s[1..], text[1..])
  {
    if fold(s[0]) == fold(text[0]) && StartsWith(fold, s[1..], text[1..]) {
      forall i | 0 <= i < |text|
        ensures fold(s[i]) == fold(text[i])
      {
        if i > 0 {
          assert s[i] == s[1..][i - 1] && text[i] == text[1..][i - 1];
        }
      }
    }
    if StartsWith(fold, s, text) {
      forall i | 0 <= i < |text| - 1
        ensures fold(s[1..][i]) == fold(text[1..][i])
      {
        assert fold(s[i + 1]) == fold(text[i + 1]);
      }
    }
  }

  /** The pattern for `text` matches exactly the strings that contain `text` literally. */
  lemma ContainsPatternMatchesLiterally(fold: char -> char, text: string, s: string)
    ensures WellFormed(ContainsPattern(text))
    ensures Matches(fold, ContainsPattern(text), s) <==> Contains(fold, s, text)
  {
    var pattern, rest := ContainsPattern(text), Escape(text) + "%";
    assert pattern == "%" + rest && pattern[1..] == rest;
    forall k | 0 <= k <= |s|
      ensures WellFormed(rest) && (Matches(fold, rest, s[k..]) <==> StartsWith(fold, s[k..], text))
    {
      EscapedPrefix(fold, text, s[k..]);
    }
    EscapedPrefix(fold, text, s);
  }
}
