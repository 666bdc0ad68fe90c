/**
 * The label formatter both screens apply to a record key:
 * `key.replace(/_/g, " ").replace(/\b\w/g, (l) => l.toUpperCase())`.
 */
module Labels {

  /** `\w` in a JavaScript regular expression without the `u` flag. */
  predicate IsWordChar(c: char) {
    'a' <= c <= 'z' || 'A' <= c <= 'Z' || '0' <= c <= '9' || c == '_'
  }

  /** A letter or a digit: what `\w` matches once underscores are gone. */
  predicate IsAlnum(c: char) {
    'a' <= c <= 'z' || 'A' <= c <= 'Z' || '0' <= c <= '9'
  }

  /** `toUpperCase` on a character `\w` matched: only `a`-`z` change. */
  function ToUpper(c: char): char {
    if 'a' <= c <= 'z' then (c as int - 32) as char else c
  }

  /** `.replace(/_/g, " ")` */
  function ReplaceUnderscores(s: string): string {
    seq(|s|, i requires 0 <= i < |s| => if s[i] == '_' then ' ' else s[i])
  }

  /** `\b` before position `i` of `s`, where `s[i]` is a word character. */
  predicate AtBoundary(s: string, i: nat)
    requires i < |s|
  {
    i == 0 || !IsWordChar(s[i - 1])
  }

  /**
   * `.replace(/\b\w/g, (l) => l.toUpperCase())`: a word character is
   * upper-cased where a word boundary precedes it. Matches never overlap,
   * since each is a single character, so every position is decided on the
   * original string.
   */
  function CapitalizeWords(s: string): string {
    seq(|s|, i requires 0 <= i < |s| => if IsWordChar(s[i]) && AtBoundary(s, i) then ToUpper(s[i]) else s[i])
  }

  /**
   * Position `i` of `key` begins a word of the label: a letter or digit at
   * the start, or after a character that is neither (an underscore counts
   * as a separator, since it has become a space).
   */
  predicate IsWordStart(key: string, i: nat)
    requires i < |key|
  {
    IsAlnum(key[i]) && (i == 0 || !IsAlnum(key[i - 1]))
  }

  /** The human label of a record key. */
  function FormatLabel(key: string): (title: string)
    ensures |title| == |key|
    ensures forall i :: 0 <= i < |title| ==> title[i] != '_'
    ensures forall i {:trigger title[i]} :: 0 <= i < |key| ==>
      title[i] == (if key[i] == '_' then ' '
                   else if IsWordStart(key, i) then ToUpper(key[i])
                   else key[i])
  {
    var spaced := ReplaceUnderscores(key);
    var r := CapitalizeWords(spaced);
    assert forall i :: 0 <= i < |key| ==> (IsWordChar(spaced[i]) <==> IsAlnum(key[i]));
    assert forall i :: 0 <= i < |key| ==> (AtBoundary(spaced, i) <==> i == 0 || !IsAlnum(key[i - 1]));
    r
  }

  /** `chief_complaint`: each word of a snake-case key is capitalised. */
  lemma ChiefComplaintLabel(key: string)
    requires key == "chief_complaint"
    ensures FormatLabel(key) == "Chief Complaint"
  {
    var title := FormatLabel(key);
    assert |title| == |key|;
    assert title[0] == 'C';
    assert title[1] == 'h';
    assert title[2] == 'i';
    assert title[3] == 'e';
    assert title[4] == 'f';
    assert title[5] == ' ';
    assert title[6] == 'C';
    assert title[7] == 'o';
    assert title[8] == 'm';
    assert title[9] == 'p';
    assert title[10] == 'l';
    assert title[11] == 'a';
    assert title[12] == 'i';
    assert title[13] == 'n';
    assert title[14] == 't';
  }

  /** `bp`: an abbreviation gets only its first letter upper-cased. */
  lemma BpLabel(key: string)
    requires key == "bp"
    ensures FormatLabel(key) == "Bp"
  {
    var title := FormatLabel(key);
    assert |title| == |key|;
    assert title[0] == 'B';
    assert title[1] == 'p';
  }

  /** A digit begins a word too, so the letter after it is not capitalised. */
  lemma DigitWordLabel(key: string)
    requires key == "bp_2nd_reading"
    ensures FormatLabel(key) == "Bp 2nd Reading"
  {
    var title := FormatLabel(key);
    assert |title| == |key|;
    assert title[0] == 'B';
    assert title[1] == 'p';
    assert title[2] == ' ';
    assert title[3] == '2';
    assert title[4] == 'n';
    assert title[5] == 'd';
    assert title[6] == ' ';
    assert title[7] == 'R';
    assert title[8] == 'e';
    assert title[9] == 'a';
    assert title[10] == 'd';
    assert title[11] == 'i';
    assert title[12] == 'n';
    assert title[13] == 'g';
  }

  /** Formatting a label a second time changes nothing. */
  lemma FormatLabelIdempotent(key: string)
    ensures FormatLabel(FormatLabel(key)) == FormatLabel(key)
  {
    var title := FormatLabel(key);
    forall i | 0 <= i < |title|
      ensures FormatLabel(title)[i] == title[i]
    {
      assert IsAlnum(title[i]) <==> IsAlnum(key[i]);
      if i > 0 {
        assert IsAlnum(title[i - 1]) <==> IsAlnum(key[i - 1]);
      }
    }
  }

  /** No letter at the start of a word of the label is lower-case. */
  lemma WordStartsUpperCase(key: string, i: nat)
    requires i < |key| && IsWordStart(FormatLabel(key), i)
    ensures !('a' <= FormatLabel(key)[i] <= 'z')
  {
    var title := FormatLabel(key);
    assert IsAlnum(title[i]) <==> IsAlnum(key[i]);
    if i > 0 {
      assert IsAlnum(title[i - 1]) <==> IsAlnum(key[i - 1]);
    }
  }

  /** A single lower-case word gets exactly its first letter capitalised. */
  lemma CapitalizedWord(key: string)
    requires |key| > 0 && forall i :: 0 <= i < |key| ==> 'a' <= key[i] <= 'z'
    ensures FormatLabel(key) == [ToUpper(key[0])] + key[1..]
  {
    var title := FormatLabel(key);
    assert forall i :: 1 <= i < |key| ==> !IsWordStart(key, i);
    assert title == [ToUpper(key[0])] + key[1..];
  }

  /** Two lower-case words joined by an underscore become two capitalised words joined by a space. */
  lemma SnakeCaseWords(first: string, second: string)
    requires |first| > 0 && forall i :: 0 <= i < |first| ==> 'a' <= first[i] <= 'z'
    requires |second| > 0 && forall i :: 0 <= i < |second| ==> 'a' <= second[i] <= 'z'
    ensures FormatLabel(first + "_" + second) ==
      [ToUpper(first[0])] + first[1..] + " " + [ToUpper(second[0])] + second[1..]
  {
    var key := first + "_" + second;
    var title := FormatLabel(key);
    var expected := [ToUpper(first[0])] + first[1..] + " " + [ToUpper(second[0])] + second[1..];
    var n := |first|;
    forall i | 0 <= i < |key| ensures title[i] == expected[i] {
      if i < n {
        assert key[i] == first[i];
        if i > 0 { assert key[i - 1] == first[i - 1]; }
      } else if i == n {
      } else {
        assert key[i] == second[i - n - 1];
        if i > n + 1 { assert key[i - 1] == second[i - n - 2]; }
      }
    }
    assert title == expected;
  }

  /** A one-letter key is that letter upper-cased. */
  lemma SingleLetterLabel(c: char)
    requires 'a' <= c <= 'z'
    ensures FormatLabel([c]) == [ToUpper(c)]
  {
    CapitalizedWord([c]);
  }

  lemma NotesLabel()
    ensures FormatLabel("notes") == "Notes"
  {
    CapitalizedWord("notes");
  }

  lemma VitalsLabel()
    ensures FormatLabel("vitals") == "Vitals"
  {
    CapitalizedWord("vitals");
  }
}
