/**
 * The allowed-character string of LogviewerController::filename2id, and the proof that the
 * `strpos` test on it is the range test IsIdChar that Filename2Id's loop applies.
 */
module IdAlphabet {
  import opened FilenameId

  /** The allowed list "abcdefghijklmnopqrstuwvxyz01234567890-" as written, in three pieces: all
      26 letters (u, w, v out of order), the digits ('0' twice) and '-'. */
  const IdChars: string := "abcdefghijklm" + "nopqrstuwvxyz" + "01234567890-"

  /** strpos($chars, $c) !== false holds exactly of the lower-case letters, the digits and '-'. */
  lemma {:induction false} InIdCharsIffIdChar(c: char)
    ensures c in IdChars <==> IsIdChar(c)
  {
    FirstLetters(c);
    LastLetters(c);
    DigitsAndDash(c);
  }

  lemma FirstLetters(c: char)
    ensures c in "abcdefghijklm" <==> 'a' <= c <= 'm'
  {
  }

  lemma LastLetters(c: char)
    ensures c in "nopqrstuwvxyz" <==> 'n' <= c <= 'z'
  {
  }

  lemma DigitsAndDash(c: char)
    ensures c in "01234567890-" <==> '0' <= c <= '9' || c == '-'
  {
  }
}
