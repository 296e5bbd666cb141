/** The character classes of the recognisers as the character lists of Appendix A of RFC 3986
    and section 2 of RFC 5234. */
module CharLists {
  import opened Chars
  import opened UriGrammar
  import ExtraFunc

  const DIGIT := "0123456789"
  const UPPER := "ABCDEFGHIJKLMNOPQRSTUVWXYZ"
  const LOWER := "abcdefghijklmnopqrstuvwxyz"
  const HEXDIG := "0123456789ABCDEFabcdef"
  const MARKS := "-._~"
  const SUB_DELIMS := "!$&'()*+,;="

  lemma UpperList(c: char)
    ensures 'A' <= c <= 'Z' <==> c in UPPER
  {
    if 'A' <= c <= 'Z' {
      assert UPPER[c as int - 'A' as int] == c;
    }
  }

  lemma LowerList(c: char)
    ensures 'a' <= c <= 'z' <==> c in LOWER
  {
    if 'a' <= c <= 'z' {
      assert LOWER[c as int - 'a' as int] == c;
    }
  }

  lemma DigitLists(c: char)
    ensures IsNum(c) <==> c in DIGIT
    ensures IsHexDigit(c) <==> c in HEXDIG
  {
    if IsNum(c) {
      assert DIGIT[c as int - '0' as int] == c && HEXDIG[c as int - '0' as int] == c;
    } else if 'A' <= c <= 'F' {
      assert HEXDIG[c as int - 'A' as int + 10] == c;
    } else if 'a' <= c <= 'f' {
      assert HEXDIG[c as int - 'a' as int + 16] == c;
    }
  }

  lemma MarkLists(c: char)
    ensures c in MARKS <==> c == '-' || c == '.' || c == '_' || c == '~'
    ensures IsSubDelim(c) <==> c in SUB_DELIMS
  {
    assert MARKS == ['-', '.', '_', '~'];
    assert SUB_DELIMS == ['!', '$', '&', '\'', '(', ')', '*', '+', ',', ';', '='];
  }

  /** Membership in each class is membership in the characters RFC 3986 lists for it. */
  lemma Classes(c: char)
    ensures var alphanum := c in UPPER || c in LOWER || c in DIGIT;
      var unreserved := alphanum || c in MARKS;
      && (IsAlpha(c) <==> c in UPPER || c in LOWER) && (IsNum(c) <==> c in DIGIT)
      && (IsAlphaNum(c) <==> alphanum) && (IsHexDigit(c) <==> c in HEXDIG)
      && (IsUnreserved(c) <==> unreserved) && (IsSubDelim(c) <==> c in SUB_DELIMS)
      && (IsSchemeChar(c) <==> alphanum || c in "+-.")
      && (IsUserInfoChar(c) <==> unreserved || c in SUB_DELIMS || c in ":")
      && (IsRegNameChar(c) <==> unreserved || c in SUB_DELIMS)
      && (IsPChar(c) <==> unreserved || c in SUB_DELIMS || c in ":@")
      && (IsNcChar(c) <==> unreserved || c in SUB_DELIMS || c in "@")
      && (ExtraFunc.IsLabelChar(c) <==> alphanum || c in "-")
      && (IsQueryChar(c) <==> unreserved || c in SUB_DELIMS || c in ":@/?")
  {
    hide UPPER, LOWER;
    UpperList(c);
    LowerList(c);
    DigitLists(c);
    MarkLists(c);
  }
}
