/** The fixed character set the exporter walks (font-to-svg.py line 9) and the
    file name each character is saved under (line 49). */
module Charset {

  /** Upper-case Latin, lower-case Latin, digits, period, comma: 64 characters,
      in export order. Written as its four runs of consecutive code points;
      CharsLiteral proves it is the literal of the source. */
  const CHARS: string := Run('A', 26) + Run('a', 26) + Run('0', 10) + ".,"

  /** `n` consecutive code points starting at `first`. */
  function Run(first: char, n: nat): (r: string)
    requires first as int + n < 0xD800
    ensures |r| == n
    ensures forall k :: 0 <= k < n ==> r[k] as int == first as int + k
  {
    seq(n, k requires 0 <= k < n => (first as int + k) as char)
  }

  /** Python's `str.isupper()` on the characters it is applied to here. */
  predicate IsUpper(c: char) {
    'A' <= c <= 'Z'
  }

  /** ASCII case folding, as a case-insensitive file system compares names. */
  function FoldChar(c: char): (d: char)
    ensures IsUpper(c) ==> d as int == c as int + 32
    ensures !IsUpper(c) ==> d == c
  {
    if IsUpper(c) then (c as int + 32) as char else c
  }

  function Fold(s: string): (t: string)
    ensures |t| == |s|
    ensures forall i :: 0 <= i < |s| ==> t[i] == FoldChar(s[i])
  {
    seq(|s|, i requires 0 <= i < |s| => FoldChar(s[i]))
  }

  /** The output file name of a character: `!` + c + `.svg` for an upper-case
      letter, so that `A` and `a` cannot collide on a case-insensitive file
      system, and c + `.svg` otherwise. The character is recoverable as the
      fifth character from the end. */
  function FileName(c: char): (name: string)
    ensures |name| == (if IsUpper(c) then 6 else 5)
    ensures name[|name| - 5] == c && name[|name| - 4..] == ".svg"
    ensures IsUpper(c) ==> name[0] == '!'
  {
    (if IsUpper(c) then "!" else "") + [c] + ".svg"
  }

  lemma CharsSplit()
    ensures "ABCDEFGHIJKLMNOPQRSTUVWXYZabcdefghijklmnopqrstuvwxyz0123456789.,"
         == "ABCDEFGHIJKLMNOPQRSTUVWXYZ" + "abcdefghijklmnopqrstuvwxyz" + "0123456789" + ".,"
  {
    assert "ABCDEFGHIJKLMNOPQRSTUVWXYZabcdefghijklmnopqrstuvwxyz0123456789.,"
        == "ABCDEFGHIJKLMNOPQRSTUVWXYZabcdefghijklmnopqrstuvwxyz" + "0123456789.,";
    LettersSplit();
    assert "0123456789.," == "0123456789" + ".,";
  }

  lemma LettersSplit()
    ensures "ABCDEFGHIJKLMNOPQRSTUVWXYZabcdefghijklmnopqrstuvwxyz"
         == "ABCDEFGHIJKLMNOPQRSTUVWXYZ" + "abcdefghijklmnopqrstuvwxyz"
  {
  }

  lemma UpperLettersRun()
    ensures "ABCDEFGHIJKLMNOPQRSTUVWXYZ" == Run('A', 26)
  {
    assert "ABCDEFGHIJKLMNOPQRSTUVWXYZ" == "ABCDEFGHIJ" + "KLMNOPQRST" + "UVWXYZ";
    assert "ABCDEFGHIJ" == Run('A', 10);
    assert "KLMNOPQRST" == Run('K', 10);
    assert "UVWXYZ" == Run('U', 6);
  }

  lemma LowerLettersRun()
    ensures "abcdefghijklmnopqrstuvwxyz" == Run('a', 26)
  {
    assert "abcdefghijklmnopqrstuvwxyz" == "abcdefghij" + "klmnopqrst" + "uvwxyz";
    assert "abcdefghij" == Run('a', 10);
    assert "klmnopqrst" == Run('k', 10);
    assert "uvwxyz" == Run('u', 6);
  }

  /** CHARS is, character for character, the 64-character literal of the
      source. */
  lemma CharsLiteral()
    ensures CHARS == "ABCDEFGHIJKLMNOPQRSTUVWXYZabcdefghijklmnopqrstuvwxyz0123456789.,"
  {
    CharsSplit();
    UpperLettersRun();
    LowerLettersRun();
    assert "0123456789" == Run('0', 10);
  }

  /** The position of each character of CHARS: its 64 characters are A-Z at
      0-25, a-z at 26-51, 0-9 at 52-61, then `.` and `,`. */
  lemma CharsLayout()
    ensures |CHARS| == 64
    ensures forall i :: 0 <= i < 26 ==> CHARS[i] as int == 'A' as int + i
    ensures forall i :: 26 <= i < 52 ==> CHARS[i] as int == 'a' as int + (i - 26)
    ensures forall i :: 52 <= i < 62 ==> CHARS[i] as int == '0' as int + (i - 52)
    ensures CHARS[62] == '.' && CHARS[63] == ','
  {
  }

  /** No character occurs twice in CHARS. */
  lemma CharsDistinct()
    ensures forall i, j :: 0 <= i < j < |CHARS| ==> CHARS[i] != CHARS[j]
  {
    CharsLayout();
  }

  /** CHARS opens with the 26 letters A to Z, and no other character of it is
      upper case. */
  lemma UpperLettersFirst()
    ensures CHARS[..26] == "ABCDEFGHIJKLMNOPQRSTUVWXYZ"
    ensures forall i :: 0 <= i < |CHARS| ==> (IsUpper(CHARS[i]) <==> i < 26)
  {
    UpperLettersRun();
    assert CHARS[..26] == Run('A', 26);
    CharsLayout();
  }

  /** Within CHARS, exactly the letters A to Z get the `!` prefix: the name of
      the character at index i starts with `!` if and only if i < 26, and every
      upper-case letter is among them. */
  lemma PrefixExactlyOnUpperLetters()
    ensures forall i :: 0 <= i < |CHARS| ==> (FileName(CHARS[i])[0] == '!' <==> i < 26)
    ensures forall c :: IsUpper(c) ==> c in CHARS[..26]
  {
    UpperLettersFirst();
    CharsLayout();
    forall i | 0 <= i < |CHARS| ensures FileName(CHARS[i])[0] == '!' <==> i < 26 {
      assert i >= 26 ==> FileName(CHARS[i])[0] == CHARS[i] != '!';
    }
    forall c | IsUpper(c) ensures c in CHARS[..26] {
      assert CHARS[c as int - 'A' as int] == c;
    }
  }

  /** Distinct characters are saved under distinct names. */
  lemma FileNameInjective(c: char, d: char)
    requires c != d
    ensures FileName(c) != FileName(d)
  {
  }

  /** Distinct characters are saved under names that still differ when case is
      ignored: the `!` prefix keeps `!A.svg` apart from `a.svg`. */
  lemma FileNamesDifferIgnoringCase(c: char, d: char)
    requires c != d
    ensures Fold(FileName(c)) != Fold(FileName(d))
  {
    var n, m := FileName(c), FileName(d);
    if |n| == |m| {
      assert Fold(n)[|n| - 5] == FoldChar(c) && Fold(m)[|m| - 5] == FoldChar(d);
    }
  }

  /** Without the prefix, an upper-case letter and its lower-case partner would
      be saved under names a case-insensitive file system takes as one. */
  lemma UnprefixedNamesCollide(c: char)
    requires IsUpper(c)
    ensures c != FoldChar(c)
    ensures Fold([c] + ".svg") == Fold([FoldChar(c)] + ".svg")
  {
  }
}
