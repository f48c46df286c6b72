/**
  Worked inputs for the highlighter, each stated for a string given by its
  characters and proved position by position: the signature line of a data
  declaration, whole-word keywords, two-character operators and lone
  symbols, primed type names and quoted literals.
*/
module TokenizerExamples {
  import opened Options
  import opened Rules
  import opened Tokenizer
  import opened Verdicts

  /** s is `data Foo = Bar { x :: Int }`, given piece by piece. */
  predicate IsDataDecl(s: string) {
    && |s| == 27
    && s[0..4] == "data" && s[4] == ' ' && s[5..8] == "Foo" && s[8..11] == " = "
    && s[11..14] == "Bar" && s[14..19] == " { x " && s[19..21] == "::" && s[21] == ' '
    && s[22..25] == "Int" && s[25..] == " }"
  }

  /** The string literal is the declaration, piece by piece. */
  lemma DataDeclIsDataDecl()
    ensures IsDataDecl("data Foo = Bar { x :: Int }")
  {
    var s := "data Foo = Bar { x :: Int }";
    SliceIs(s, 5, "Foo");
    SliceIs(s, 8, " = ");
    SliceIs(s, 11, "Bar");
    SliceIs(s, 14, " { x ");
    SliceIs(s, 19, "::");
    SliceIs(s, 22, "Int");
    SliceIs(s, 25, " }");
  }

  /** A slice equals a word when it has the word's characters. */
  lemma SliceIs(s: string, p: nat, w: string)
    requires p + |w| <= |s| && forall i :: 0 <= i < |w| ==> s[p + i] == w[i]
    ensures s[p..p + |w|] == w
  {
  }

  // The scan over the declaration, from one emitted position to the next,
  // for any table that has the expression's verdicts at the positions used.

  lemma DataDeclScan0(s: string, t: seq<Option<Match>>)
    requires IsDataDecl(s) && Fits(s, t)
    requires t[0] == Some(Match(Keyword, 4))
    ensures Scan(s, t, 0, 0) == [Span(Keyword, "data")] + Scan(s, t, 4, 4)
  {
    ScanAdvance(s, t, 0, 0);
  }

  lemma DataDeclScan4(s: string, t: seq<Option<Match>>)
    requires IsDataDecl(s) && Fits(s, t)
    requires t[4].None? && t[5] == Some(Match(TypeName, 3))
    ensures Scan(s, t, 4, 4) == [Span(Plain, " "), Span(TypeName, "Foo")] + Scan(s, t, 8, 8)
  {
    ScanAdvance(s, t, 4, 5);
    assert s[4..5] == [s[4]];
  }

  lemma DataDeclScan8(s: string, t: seq<Option<Match>>)
    requires IsDataDecl(s) && Fits(s, t)
    requires t[8].None? && t[9].None? && t[10].None? && t[11] == Some(Match(TypeName, 3))
    ensures Scan(s, t, 8, 8) == [Span(Plain, " = "), Span(TypeName, "Bar")] + Scan(s, t, 14, 14)
  {
    ScanAdvance(s, t, 8, 11);
  }

  lemma DataDeclScan14(s: string, t: seq<Option<Match>>)
    requires IsDataDecl(s) && Fits(s, t)
    requires t[14].None? && t[15].None? && t[16].None? && t[17].None? && t[18].None?
    requires t[19] == Some(Match(Operator, 2))
    ensures Scan(s, t, 14, 14) == [Span(Plain, " { x "), Span(Operator, "::")] + Scan(s, t, 21, 21)
  {
    ScanAdvance(s, t, 14, 19);
  }

  lemma DataDeclScan21(s: string, t: seq<Option<Match>>)
    requires IsDataDecl(s) && Fits(s, t)
    requires t[21].None? && t[22] == Some(Match(TypeName, 3)) && t[25].None? && t[26].None?
    ensures Scan(s, t, 21, 21) == [Span(Plain, " "), Span(TypeName, "Int"), Span(Plain, " }")]
  {
    ScanAdvance(s, t, 21, 22);
    ScanFinish(s, t, 25);
    assert s[21..22] == [s[21]];
  }

  /** The whole scan over the declaration. */
  lemma DataDeclScan(s: string, t: seq<Option<Match>>)
    requires IsDataDecl(s) && Fits(s, t)
    requires t[0] == Some(Match(Keyword, 4)) && t[4].None? && t[5] == Some(Match(TypeName, 3))
    requires t[8].None? && t[9].None? && t[10].None? && t[11] == Some(Match(TypeName, 3))
    requires t[14].None? && t[15].None? && t[16].None? && t[17].None? && t[18].None?
    requires t[19] == Some(Match(Operator, 2)) && t[21].None? && t[22] == Some(Match(TypeName, 3))
    requires t[25].None? && t[26].None?
    ensures Scan(s, t, 0, 0) == [
      Span(Keyword, "data"), Span(Plain, " "), Span(TypeName, "Foo"), Span(Plain, " = "),
      Span(TypeName, "Bar"), Span(Plain, " { x "), Span(Operator, "::"), Span(Plain, " "),
      Span(TypeName, "Int"), Span(Plain, " }")]
  {
    DataDeclScan0(s, t);
    DataDeclScan4(s, t);
    DataDeclScan8(s, t);
    DataDeclScan14(s, t);
    DataDeclScan21(s, t);
  }

  /** The characters of s, read off its pieces. */
  lemma DataDeclChars(s: string)
    requires IsDataDecl(s)
    ensures s[0] == 'd' && s[1] == 'a' && s[2] == 't' && s[3] == 'a' && s[4] == ' '
    ensures s[5] == 'F' && s[6] == 'o' && s[7] == 'o' && s[8] == ' ' && s[9] == '=' && s[10] == ' '
    ensures s[11] == 'B' && s[12] == 'a' && s[13] == 'r' && s[14] == ' ' && s[15] == '{' && s[16] == ' '
    ensures s[17] == 'x' && s[18] == ' ' && s[19] == ':' && s[20] == ':' && s[21] == ' '
    ensures s[22] == 'I' && s[23] == 'n' && s[24] == 't' && s[25] == ' ' && s[26] == '}'
  {
    assert s[0..4][0] == s[0] && s[0..4][1] == s[1] && s[0..4][2] == s[2] && s[0..4][3] == s[3];
    assert s[5..8][0] == s[5] && s[5..8][1] == s[6] && s[5..8][2] == s[7];
    assert s[8..11][0] == s[8] && s[8..11][1] == s[9] && s[8..11][2] == s[10];
    assert s[11..14][0] == s[11] && s[11..14][1] == s[12] && s[11..14][2] == s[13];
    assert s[14..19][0] == s[14] && s[14..19][1] == s[15] && s[14..19][2] == s[16];
    assert s[14..19][3] == s[17] && s[14..19][4] == s[18];
    assert s[19..21][0] == s[19] && s[19..21][1] == s[20];
    assert s[22..25][0] == s[22] && s[22..25][1] == s[23] && s[22..25][2] == s[24];
    assert s[25..][0] == s[25] && s[25..][1] == s[26];
  }

  // The expression's verdicts along the declaration.

  lemma DataDeclMatchesData(s: string)
    requires IsDataDecl(s)
    ensures MatchAt(s, 0) == Some(Match(Keyword, 4))
  {
    DataDeclChars(s);
    KeywordAt(s, 0, 0);
  }

  lemma DataDeclMatchesFoo(s: string)
    requires IsDataDecl(s)
    ensures MatchAt(s, 4).None? && MatchAt(s, 5) == Some(Match(TypeName, 3))
  {
    DataDeclChars(s);
    QuietRun(s, 4, 5);
    TypeNameAt(s, 5, 3, 8);
  }

  lemma DataDeclMatchesBar(s: string)
    requires IsDataDecl(s)
    ensures MatchAt(s, 8).None? && MatchAt(s, 9).None? && MatchAt(s, 10).None?
    ensures MatchAt(s, 11) == Some(Match(TypeName, 3))
  {
    DataDeclChars(s);
    QuietRun(s, 8, 9);
    NoKeywordAt(s, 9);
    NoOperatorAt(s, 9);
    NoMatchAt(s, 9);
    QuietRun(s, 10, 11);
    TypeNameAt(s, 11, 3, 14);
  }

  lemma DataDeclMatchesColons(s: string)
    requires IsDataDecl(s)
    ensures MatchAt(s, 14).None? && MatchAt(s, 15).None? && MatchAt(s, 16).None?
    ensures MatchAt(s, 17).None? && MatchAt(s, 18).None?
    ensures MatchAt(s, 19) == Some(Match(Operator, 2))
  {
    DataDeclChars(s);
    QuietRun(s, 14, 17);
    NoWholeKeywordAt(s, 17);
    NoOperatorAt(s, 17);
    NoMatchAt(s, 17);
    QuietRun(s, 18, 19);
    assert s[19..21] == Operators[0];
    OperatorAt(s, 19, 0);
  }

  lemma DataDeclMatchesInt(s: string)
    requires IsDataDecl(s)
    ensures MatchAt(s, 21).None? && MatchAt(s, 22) == Some(Match(TypeName, 3))
    ensures MatchAt(s, 25).None? && MatchAt(s, 26).None?
  {
    DataDeclChars(s);
    QuietRun(s, 21, 22);
    TypeNameAt(s, 22, 3, 25);
    QuietRun(s, 25, 27);
  }

  /**
    `data Foo = Bar { x :: Int }` highlights as: keyword `data`, plain,
    type `Foo`, plain ` = `, type `Bar`, plain ` { x `, operator `::`,
    plain, type `Int`, plain ` }`.
  */
  lemma DataDeclHighlight(s: string)
    requires IsDataDecl(s)
    ensures Highlight(s) == [
      Span(Keyword, "data"), Span(Plain, " "), Span(TypeName, "Foo"), Span(Plain, " = "),
      Span(TypeName, "Bar"), Span(Plain, " { x "), Span(Operator, "::"), Span(Plain, " "),
      Span(TypeName, "Int"), Span(Plain, " }")]
  {
    var t := MatchTable(s);
    forall i | 0 <= i < |s|
      ensures t[i] == MatchAt(s, i)
    {
      MatchTableAt(s, i);
    }
    DataDeclMatchesData(s);
    DataDeclMatchesFoo(s);
    DataDeclMatchesBar(s);
    DataDeclMatchesColons(s);
    DataDeclMatchesInt(s);
    DataDeclScan(s, t);
  }
  // ---------------------------------------------------------------------
  // Whole words, operators, primes and quotes, wherever they stand

  /** `instance` between boundaries is one keyword span: `in` does not split it. */
  lemma InstanceIsOneKeyword(s: string, p: nat)
    requires p + 8 <= |s| && s[p..p + 8] == "instance" && Boundary(s, p) && Boundary(s, p + 8)
    ensures MatchAt(s, p) == Some(Match(Keyword, 8))
  {
    KeywordAt(s, p, 4);
  }

  /** `inside` is no keyword: `in` is followed by a letter, and nothing else matches inside the word. */
  lemma InsideIsPlain(s: string, p: nat)
    requires p + 6 <= |s| && s[p..p + 6] == "inside"
    ensures forall i :: p <= i < p + 6 ==> MatchAt(s, i).None?
  {
    assert s[p] == 'i' && s[p + 1] == 'n' && s[p + 2] == 's' && s[p + 3] == 'i' && s[p + 4] == 'd' && s[p + 5] == 'e' by {
      assert s[p..p + 6][0] == s[p] && s[p..p + 6][1] == s[p + 1] && s[p..p + 6][2] == s[p + 2];
      assert s[p..p + 6][3] == s[p + 3] && s[p..p + 6][4] == s[p + 4] && s[p..p + 6][5] == s[p + 5];
    }
    forall i | p <= i < p + 6
      ensures MatchAt(s, i).None?
    {
      NoWholeKeywordAt(s, i);
      NoOperatorAt(s, i);
      NoMatchAt(s, i);
    }
  }

  /** `->` is one operator span. */
  lemma ArrowIsOneOperator(s: string, p: nat)
    requires p + 2 <= |s| && s[p..p + 2] == "->"
    ensures MatchAt(s, p) == Some(Match(Operator, 2))
  {
    OperatorAt(s, p, 1);
  }

  /** A `-`, `=`, `<` or `:` that starts no two-character operator matches nothing. */
  lemma LoneSymbolIsPlain(s: string, p: nat)
    requires p < |s| && s[p] in "-=<:"
    requires p + 1 == |s| || s[p + 1] != SecondHalf(s[p])
    ensures MatchAt(s, p).None?
  {
    NoKeywordAt(s, p);
    NoOperatorAt(s, p);
    NoMatchAt(s, p);
  }

  /** The `--` that opens a Haskell line comment is not an operator: both dashes stay plain unless a `>` follows. */
  lemma CommentDashesArePlain(s: string, p: nat)
    requires p + 2 <= |s| && s[p] == '-' && s[p + 1] == '-'
    requires p + 2 == |s| || s[p + 2] != '>'
    ensures MatchAt(s, p).None? && MatchAt(s, p + 1).None?
  {
    LoneSymbolIsPlain(s, p);
    LoneSymbolIsPlain(s, p + 1);
  }

  /** A prime with no prime after it matches nothing. */
  lemma UnclosedQuoteIsPlain(s: string, p: nat)
    requires p < |s| && s[p] == '\''
    requires forall j :: p < j < |s| ==> s[j] != '\''
    ensures MatchAt(s, p).None?
  {
    NoKeywordAt(s, p);
    NoOperatorAt(s, p);
    NoMatchAt(s, p);
  }

  /** No type name starts in the middle of a word, as in `fooBar` or `_Foo`. */
  lemma NoTypeNameInsideWord(s: string, p: nat)
    requires 0 < p < |s| && IsWordChar(s[p - 1]) && IsUpper(s[p])
    ensures MatchAt(s, p).None?
  {
    NoKeywordAt(s, p);
    NoOperatorAt(s, p);
    NoMatchAt(s, p);
  }

  /** `Foo'` at a boundary is the type name `Foo`: the trailing prime is left out of it. */
  lemma PrimedNameDropsPrime(s: string, p: nat)
    requires p + 4 <= |s| && s[p..p + 4] == "Foo'" && Boundary(s, p)
    requires p + 4 == |s| || !IsNameChar(s[p + 4])
    ensures MatchAt(s, p) == Some(Match(TypeName, 3))
  {
    assert s[p] == 'F' && s[p + 1] == 'o' && s[p + 2] == 'o' && s[p + 3] == '\'' by {
      assert s[p..p + 4][0] == s[p] && s[p..p + 4][1] == s[p + 1];
      assert s[p..p + 4][2] == s[p + 2] && s[p..p + 4][3] == s[p + 3];
    }
    TypeNameAt(s, p, 3, p + 4);
  }

  /** `'a'`, a type-level string, is one quoted span. */
  lemma QuotedLetterIsQuoted(s: string, p: nat)
    requires p + 3 <= |s| && s[p..p + 3] == "'a'"
    ensures MatchAt(s, p) == Some(Match(Quoted, 3))
  {
    assert s[p] == '\'' && s[p + 1] == 'a' && s[p + 2] == '\'' by {
      assert s[p..p + 3][0] == s[p] && s[p..p + 3][1] == s[p + 1] && s[p..p + 3][2] == s[p + 2];
    }
    QuotedAt(s, p, 3);
  }
}
