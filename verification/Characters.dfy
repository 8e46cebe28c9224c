/** Alphabets, letter by letter. */
module Characters {
  const UPPER: string := "ABCDEFGHIJKLMNOPQRSTUVWXYZ"
  const LOWER: string := "abcdefghijklmnopqrstuvwxyz"
  const DIGITS: string := "0123456789"

  /** The characters of `s` have consecutive codes, from `first` on. */
  ghost predicate Consecutive(s: string, first: nat) {
    forall i :: 0 <= i < |s| ==> s[i] as int == first + i
  }

  lemma ConsecutiveMember(s: string, first: nat, c: char)
    requires Consecutive(s, first)
    ensures c in s <==> first <= c as int < first + |s|
  {
    if first <= c as int < first + |s| { assert s[c as int - first] == c; }
  }

  lemma UpperAlphabet()
    ensures |UPPER| == 26 && Consecutive(UPPER, 65)
  {
  }

  lemma LowerAlphabet()
    ensures |LOWER| == 26 && Consecutive(LOWER, 97)
  {
  }

  lemma DecimalDigits()
    ensures |DIGITS| == 10 && Consecutive(DIGITS, 48)
  {
  }

  /** Letters and digits by their codes. */
  lemma Alphanumeric(c: char)
    ensures c in UPPER + LOWER + DIGITS <==> 48 <= c as int <= 57 || 65 <= c as int <= 90 || 97 <= c as int <= 122
  {
    UpperAlphabet();
    LowerAlphabet();
    DecimalDigits();
    ConsecutiveMember(UPPER, 65, c);
    ConsecutiveMember(LOWER, 97, c);
    ConsecutiveMember(DIGITS, 48, c);
  }
}
