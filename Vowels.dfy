/** ACSL is a planet with four vowels: A, C, S and L. This module holds the
    word transformations of VowelsRUs: the vowel test, the classification of a
    word by its last two letters, and the plural and suffixed forms that the
    classification selects. Words are sequences of characters, already upper
    case. */
module VowelsRUs {

  /** The four ACSL vowels. */
  const Vowels: set<char> := {'A', 'C', 'S', 'L'}

  /** The ACSL vowel test. It is case-sensitive: only upper-case letters can be
      vowels, so 'a', 'c', 's' and 'l' are consonants. */
  predicate IsVowel(c: char)
    ensures IsVowel(c) <==> c in Vowels
    ensures IsVowel(c) ==> 'A' <= c <= 'Z'
  {
    match c
    case 'A' | 'C' | 'S' | 'L' => true
    case _ => false
  }

  /** How a word ends: the last two letters are a vowel and a consonant
      (OneConsonant), a consonant and a vowel (OneVowel), or of the same kind
      (Two). */
  datatype Ending = OneConsonant | OneVowel | Two

  /** The ending of a word, read from its last two characters. */
  function GetEnding(w: seq<char>): (e: Ending)
    requires |w| >= 2
    ensures e == Two <==> IsVowel(w[|w| - 1]) == IsVowel(w[|w| - 2])
    ensures e == OneVowel <==> IsVowel(w[|w| - 1]) && !IsVowel(w[|w| - 2])
    ensures e == OneConsonant <==> !IsVowel(w[|w| - 1]) && IsVowel(w[|w| - 2])
  {
    var v1 := IsVowel(w[|w| - 1]);
    var v2 := IsVowel(w[|w| - 2]);
    if v1 == v2 then Two
    else if v1 then OneVowel
    else OneConsonant
  }

  /** The ending is a function of the last two characters alone. */
  lemma EndingDependsOnLastTwo(w: seq<char>, w': seq<char>)
    requires |w| >= 2 && |w'| >= 2
    requires w[|w| - 2..] == w'[|w'| - 2..]
    ensures GetEnding(w) == GetEnding(w')
  {
  }

  /** The plural of a word whose ending is `e`: "GH" is appended after
      OneConsonant, the last letter becomes 'G' after OneVowel, and after Two
      the last letter is repeated and followed by 'H'. The ending is taken as
      given; it need not be the word's own. */
  function GetPlural(w: seq<char>, e: Ending): (p: seq<char>)
    requires e == OneConsonant || |w| >= 1
    ensures e == OneVowel ==> |p| == |w| && p[..|w| - 1] == w[..|w| - 1] && p[|w| - 1] == 'G'
    ensures e != OneVowel ==> |p| == |w| + 2 && p[..|w|] == w
    ensures e == OneConsonant ==> p[|w|..] == "GH"
    ensures e == Two ==> p[|w|] == w[|w| - 1] && p[|w| + 1] == 'H'
  {
    match e
    case OneConsonant => w + "GH"
    case OneVowel => w[|w| - 1 := 'G']
    case Two => w + [w[|w| - 1], 'H']
  }

  /** The plural of a classified word never ends in OneVowel: "GH", a consonant
      followed by 'G', and a repeated consonant followed by 'H' all end in Two,
      and only a repeated vowel followed by 'H' ends in OneConsonant. */
  lemma PluralEnding(w: seq<char>)
    requires |w| >= 2
    ensures GetEnding(GetPlural(w, GetEnding(w))) ==
              if GetEnding(w) == Two && IsVowel(w[|w| - 1]) then OneConsonant else Two
  {
  }

  /** The suffixed form of a word whose ending is `e`. After OneConsonant the
      suffix is appended as it is (it may be empty). Otherwise the suffix's
      first letter decides, giving one of three joins:
      - OneVowel and a consonant first, or Two and a vowel first: the first
        letter is doubled;
      - OneVowel and a vowel first: the first letter is dropped;
      - Two and a consonant first: the word's second-to-last letter is
        deleted.
      In all three the word up to its last two letters is kept. */
  function GetSuffixed(w: seq<char>, s: seq<char>, e: Ending): (r: seq<char>)
    requires e == OneConsonant || (|s| >= 1 && (e == Two && !IsVowel(s[0]) ==> |w| >= 2))
    ensures e == OneConsonant ==> r == w + s
    ensures e == OneVowel && !IsVowel(s[0]) ==> r == w + [s[0]] + s && |r| == |w| + |s| + 1
    ensures e == Two && IsVowel(s[0]) ==> r == w + [s[0]] + s && |r| == |w| + |s| + 1
    ensures e == OneVowel && IsVowel(s[0]) ==> r == w + s[1..] && |r| == |w| + |s| - 1
    ensures e == Two && !IsVowel(s[0]) ==>
              r == w[..|w| - 2] + [w[|w| - 1]] + s && |r| == |w| + |s| - 1
    ensures e != OneConsonant && |w| >= 2 ==> r[..|w| - 2] == w[..|w| - 2]
  {
    if e == OneConsonant then
      w + s
    else
      var first := s[0];
      var isv := IsVowel(first);
      if (!isv && e == OneVowel) || (isv && e == Two) then
        w + [first] + s
      else if isv then
        w + s[1..]
      else
        w[..|w| - 2] + [w[|w| - 1]] + s
  }

  /** Three worked lines: "CAT S", "BAL ING" and "ACS ED". */
  lemma WorkedExamples()
    ensures GetEnding("CAT") == OneConsonant
    ensures GetPlural("CAT", OneConsonant) == "CATGH"
    ensures GetSuffixed("CAT", "S", OneConsonant) == "CATS"
    ensures GetEnding("BAL") == Two
    ensures GetPlural("BAL", Two) == "BALLH"
    ensures GetSuffixed("BAL", "ING", Two) == "BLING"
    ensures GetEnding("ACS") == Two
    ensures GetPlural("ACS", Two) == "ACSSH"
    ensures GetSuffixed("ACS", "ED", Two) == "ASED"
  {
  }
}
