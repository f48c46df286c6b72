/**
  What the combined expression of the highlighter matches at one position,
  read off the characters around it: a keyword between boundaries, an
  operator, a capitalised name without its trailing primes, a quoted
  literal, or nothing at all.
*/
module Verdicts {
  import opened Options
  import opened Rules

  /** A word occurring at p starts with the character at p. */
  lemma AtHead(s: string, p: nat, w: string)
    requires |w| > 0 && At(s, p, w)
    ensures p < |s| && s[p] == w[0]
  {
    assert s[p..p + |w|][0] == s[p];
  }

  /** No keyword starts where no lower-case letter stands. */
  lemma NoKeywordAt(s: string, p: nat)
    requires p < |s| && !IsLower(s[p])
    ensures MatchKeyword(s, p).None?
  {
    KeywordsAreLowerWords();
    forall k | 0 <= k < |Keywords| && At(s, p, Keywords[k])
      ensures s[p] == Keywords[k][0]
    {
      AtHead(s, p, Keywords[k]);
    }
  }

  /** No keyword matches where every reserved word found there lacks a boundary on one side. */
  lemma NoWholeKeywordAt(s: string, p: nat)
    requires p <= |s|
    requires forall k :: 0 <= k < |Keywords| && At(s, p, Keywords[k]) ==>
      !Boundary(s, p) || !Boundary(s, p + |Keywords[k]|)
    ensures MatchKeyword(s, p).None?
  {
  }

  /** The character that completes the two-character operator opened by `:`, `-`, `=` or `<`. */
  function SecondHalf(c: char): char {
    if c == ':' then ':' else if c == '<' then '-' else '>'
  }

  /**
    No operator starts at a character that begins none, or at a `:`, `-`,
    `=` or `<` not followed by the character completing its operator (so
    `--`, `<>`, `:>` and `=-` start none).
  */
  lemma NoOperatorAt(s: string, p: nat)
    requires p < |s| && s[p] !in "|$&."
    requires s[p] in ":-=<" ==> p + 1 == |s| || s[p + 1] != SecondHalf(s[p])
    ensures MatchOperator(s, p).None?
  {
    forall k | 0 <= k < |Operators| && At(s, p, Operators[k])
      ensures s[p..p + |Operators[k]|] == Operators[k]
    {
    }
  }

  /** The operator heads: none is a word character or a prime. */
  lemma OperatorsStartWithSymbols()
    ensures forall k :: 0 <= k < |Operators| ==> |Operators[k]| > 0 && !IsWordChar(Operators[k][0]) && Operators[k][0] != '\''
  {
  }

  /** Operator k at p is what the expression matches there: no keyword starts with a symbol. */
  lemma OperatorAt(s: string, p: nat, k: nat)
    requires p < |s| && k < |Operators| && At(s, p, Operators[k])
    ensures MatchAt(s, p) == Some(Match(Operator, |Operators[k]|))
  {
    OperatorsStartWithSymbols();
    AtHead(s, p, Operators[k]);
    NoKeywordAt(s, p);
    OperatorMatchIsUnique(s, p, k);
    MatchAtPriority(s, p);
  }

  /** Keyword k between two boundaries at p is what the expression matches there. */
  lemma KeywordAt(s: string, p: nat, k: nat)
    requires p <= |s| && k < |Keywords|
    requires At(s, p, Keywords[k]) && Boundary(s, p) && Boundary(s, p + |Keywords[k]|)
    ensures MatchAt(s, p) == Some(Match(Keyword, |Keywords[k]|))
  {
    KeywordMatchIsUnique(s, p, k);
    MatchAtPriority(s, p);
  }

  /** The capitalised-name alternative stops before the trailing primes of the run. */
  lemma TypeNameLength(s: string, p: nat, n: nat, e: nat)
    requires 1 <= n && p + n <= e <= |s| && IsUpper(s[p]) && Boundary(s, p)
    requires forall i :: p <= i < p + n ==> IsWordChar(s[i])
    requires forall i :: p + n <= i < e ==> s[i] == '\''
    requires e == |s| || !IsNameChar(s[e])
    ensures MatchTypeName(s, p) == Some(n)
  {
    var m := MatchTypeName(s, p).value;
    assert Boundary(s, p + n);
    assert NameRun(s, p + 1, p + n);
  }

  /**
    A capital at a boundary starting n word characters, followed by primes
    up to e and then no name character, is a type name of length n: the
    trailing primes are not part of it.
  */
  lemma TypeNameAt(s: string, p: nat, n: nat, e: nat)
    requires 1 <= n && p + n <= e <= |s| && IsUpper(s[p]) && Boundary(s, p)
    requires forall i :: p <= i < p + n ==> IsWordChar(s[i])
    requires forall i :: p + n <= i < e ==> s[i] == '\''
    requires e == |s| || !IsNameChar(s[e])
    ensures MatchAt(s, p) == Some(Match(TypeName, n))
  {
    NoKeywordAt(s, p);
    NoOperatorAt(s, p);
    TypeNameLength(s, p, n, e);
    MatchAtPriority(s, p);
  }

  /** A prime, n - 2 other characters and a prime make a quoted literal of length n. */
  lemma QuotedAt(s: string, p: nat, n: nat)
    requires 2 <= n && p + n <= |s| && s[p] == '\'' && s[p + n - 1] == '\''
    requires forall j :: p < j < p + n - 1 ==> s[j] != '\''
    ensures MatchAt(s, p) == Some(Match(Quoted, n))
  {
    NoKeywordAt(s, p);
    NoOperatorAt(s, p);
    assert MatchQuoted(s, p).Some?;
    MatchAtPriority(s, p);
  }

  /**
    A position where nothing matches: no keyword, no operator, no capital at
    a boundary, no prime with another prime after it.
  */
  lemma NoMatchAt(s: string, p: nat)
    requires p < |s| && MatchKeyword(s, p).None? && MatchOperator(s, p).None?
    requires !IsUpper(s[p]) || !Boundary(s, p)
    requires s[p] == '\'' ==> forall j :: p < j < |s| ==> s[j] != '\''
    ensures MatchAt(s, p) == None
  {
    MatchAtPriority(s, p);
  }

  /** A character no rule can start with: a space, a digit, a bracket and the like. */
  predicate Quiet(c: char) {
    !IsUpper(c) && !IsLower(c) && c != '\'' && c !in ":-=<|$&."
  }

  /** Nothing matches anywhere in a stretch of quiet characters. */
  lemma QuietRun(s: string, a: nat, b: nat)
    requires a <= b <= |s|
    requires forall i :: a <= i < b ==> Quiet(s[i])
    ensures forall i :: a <= i < b ==> MatchAt(s, i).None?
  {
    forall i | a <= i < b
      ensures MatchAt(s, i).None?
    {
      NoKeywordAt(s, i);
      NoOperatorAt(s, i);
      NoMatchAt(s, i);
    }
  }
}
