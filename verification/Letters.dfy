/** The letters and digits of ASCII, listed. */
module Letters {
  const LOWER: string := "abcdefghijklmnopqrstuvwxyz"
  const UPPER: string := "ABCDEFGHIJKLMNOPQRSTUVWXYZ"
  const DIGITS: string := "0123456789"

  predicate Letter(c: char) { c in LOWER || c in UPPER }

  predicate Digit(c: char) { c in DIGITS }

  lemma LowerMeans(c: char)
    ensures 'a' <= c <= 'z' <==> c in LOWER
  {
    if 'a' <= c <= 'z' { assert LOWER[c as int - 'a' as int] == c; }
  }

  lemma UpperMeans(c: char)
    ensures 'A' <= c <= 'Z' <==> c in UPPER
  {
    if 'A' <= c <= 'Z' { assert UPPER[c as int - 'A' as int] == c; }
  }

  lemma LettersMean(c: char)
    ensures 'a' <= c <= 'z' || 'A' <= c <= 'Z' <==> Letter(c)
  {
    LowerMeans(c);
    UpperMeans(c);
  }

  lemma DigitsMean(c: char)
    ensures '0' <= c <= '9' <==> Digit(c)
  {
    if '0' <= c <= '9' { assert DIGITS[c as int - '0' as int] == c; }
  }
}
