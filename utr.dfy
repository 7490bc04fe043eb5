/** The reference-code (UTR) check of `utr_handler`: the submitted text,
    stripped of surrounding whitespace, must fully match `^\d{12}$`. */
module Utr {
  import opened Text

  /** Length of a UTR: the `{12}` of the pattern. */
  const UtrLength: nat := 12

  /** `UTR_REGEX.fullmatch(code)` for the pattern `^\d{12}$`: the anchors and
      `fullmatch` both demand that the twelve digits are the whole string. */
  predicate MatchesUtrPattern(code: string) {
    |code| == UtrLength && AllDigits(code)
  }

  /** The test `utr_handler` applies to an incoming message text. */
  predicate IsValidUtr(text: string) {
    MatchesUtrPattern(Strip(text))
  }

  /** A text is accepted exactly when it is whitespace, then twelve digits,
      then whitespace; the code that is kept is those twelve digits. */
  lemma IsValidUtrIff(text: string)
    ensures IsValidUtr(text) <==>
      exists i :: 0 <= i <= |text| - UtrLength && AllSpace(text[..i])
                  && AllDigits(text[i..i + UtrLength]) && AllSpace(text[i + UtrLength..])
  {
    if IsValidUtr(text) {
      var r := Strip(text);
      var a, b := StripParts(text);
      ConcatSlices(a, r, b);
    }
    if exists i :: 0 <= i <= |text| - UtrLength && AllSpace(text[..i])
                   && AllDigits(text[i..i + UtrLength]) && AllSpace(text[i + UtrLength..]) {
      var i :| 0 <= i <= |text| - UtrLength && AllSpace(text[..i])
               && AllDigits(text[i..i + UtrLength]) && AllSpace(text[i + UtrLength..]);
      var m := text[i..i + UtrLength];
      SlicesConcat(text, i, i + UtrLength);
      StripCodeOf(text[..i], m, text[i + UtrLength..]);
    }
  }

  /** Twelve digits between whitespace strip to exactly those digits. */
  lemma StripCodeOf(p: string, code: string, q: string)
    requires AllSpace(p) && AllSpace(q) && MatchesUtrPattern(code)
    ensures Strip(p + code + q) == code
    ensures IsValidUtr(p + code + q)
  {
    DigitIsNotSpace(code[0]);
    DigitIsNotSpace(code[|code| - 1]);
    StripUnique(p, code, q);
  }

  /** Surrounding whitespace never changes what is stripped, so never
      changes the verdict. */
  lemma ValidUtrIgnoresPadding(p: string, text: string, q: string)
    requires AllSpace(p) && AllSpace(q)
    ensures Strip(p + text + q) == Strip(text)
    ensures IsValidUtr(p + text + q) <==> IsValidUtr(text)
  {
    var r := Strip(text);
    var a, b := StripParts(text);
    AllSpaceConcat(p, a);
    AllSpaceConcat(b, q);
    calc {
      p + text + q;
      p + (a + r + b) + q;
      { ConcatAssoc(a, r, b); ConcatAssoc(p, a + r, b); ConcatAssoc(p, a, r); }
      (p + a) + r + b + q;
      { ConcatAssoc(p + a + r, b, q); ConcatAssoc(p + a, r, b + q); }
      (p + a) + r + (b + q);
    }
    StripUnique(p + a, r, b + q);
  }
}
