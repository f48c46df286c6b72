/**
  The four alternatives of the highlighter's combined regular expression
  (components/HaskellRef.tsx line 89), each as a matcher that, at one scan
  position, either fails or consumes a number of characters. `\b` follows
  the ECMAScript definition: a word character is one of [A-Za-z0-9_], and
  positions outside the string count as non-word characters.
*/
module Rules {
  import opened Options

  /** Classification of a highlighted span; `Plain` is never produced by a rule. */
  datatype SpanKind = Keyword | Operator | TypeName | Quoted | Plain

  /** A successful match at a scan position: the rule that won and how much it consumed. */
  datatype Match = Match(kind: SpanKind, len: nat)

  predicate IsUpper(c: char) { 'A' <= c <= 'Z' }
  predicate IsLower(c: char) { 'a' <= c <= 'z' }
  predicate IsDigit(c: char) { '0' <= c <= '9' }

  /** ECMAScript IsWordChar: the characters that `\b` treats as word characters. */
  predicate IsWordChar(c: char) { IsUpper(c) || IsLower(c) || IsDigit(c) || c == '_' }

  /** The class [a-zA-Z0-9_'] that continues a capitalised name; it adds the prime to the word characters. */
  predicate IsNameChar(c: char) { IsWordChar(c) || c == '\'' }

  /** `\b` at index i: exactly one of the two neighbouring positions holds a word character. */
  predicate Boundary(s: string, i: nat)
    requires i <= |s|
  {
    (i > 0 && IsWordChar(s[i - 1])) != (i < |s| && IsWordChar(s[i]))
  }

  /** w occurs in s starting at index p. */
  predicate At(s: string, p: nat, w: string) {
    p + |w| <= |s| && s[p..p + |w|] == w
  }

  /** Every character of s[i..j] is a name character. */
  predicate NameRun(s: string, i: nat, j: nat)
    requires i <= j <= |s|
  {
    forall k :: i <= k < j ==> IsNameChar(s[k])
  }

  /** The reserved words of the keyword alternative, in the order the regex lists them. */
  const Keywords: seq<string> :=
    ["data", "type", "newtype", "class", "instance", "where", "let", "in", "case",
     "of", "if", "then", "else", "do", "module", "import", "forall"]

  /** The operator alternative, in the order the regex lists them. */
  const Operators: seq<string> := ["::", "->", "=>", "<-", "|", "$", "&", "."]

  /** The rules in the order the regex tries them at each position. */
  const RuleOrder: seq<SpanKind> := [Keyword, Operator, TypeName, Quoted]

  /** What a span of each kind looks like, judged from its text alone. */
  predicate Shaped(kind: SpanKind, text: string) {
    match kind
    case Keyword => text in Keywords
    case Operator => text in Operators
    case TypeName =>
      && |text| > 0
      && IsUpper(text[0])
      && text[|text| - 1] != '\''
      && forall i :: 0 <= i < |text| ==> IsNameChar(text[i])
    case Quoted =>
      && |text| >= 2
      && text[0] == '\''
      && text[|text| - 1] == '\''
      && forall i :: 0 < i < |text| - 1 ==> text[i] != '\''
    case Plain => |text| > 0
  }

  /** Every character of w is a lower-case letter. */
  predicate LowerWord(w: string) {
    forall i :: 0 <= i < |w| ==> IsLower(w[i])
  }

  lemma KeywordsAreLowerWords()
    ensures forall k :: 0 <= k < |Keywords| ==> |Keywords[k]| >= 2 && LowerWord(Keywords[k])
  {
  }

  // ---------------------------------------------------------------------
  // Keyword alternative

  /** Index of the first word of ws that occurs at p and is followed by a word boundary. */
  function FirstKeyword(s: string, p: nat, ws: seq<string>): (r: Option<nat>)
    requires p <= |s|
    ensures r.Some? ==> r.value < |ws| && At(s, p, ws[r.value]) && Boundary(s, p + |ws[r.value]|)
    ensures r.None? ==> forall k :: 0 <= k < |ws| && At(s, p, ws[k]) ==> !Boundary(s, p + |ws[k]|)
  {
    if ws == [] then None
    else if At(s, p, ws[0]) && Boundary(s, p + |ws[0]|) then Some(0)
    else match FirstKeyword(s, p, ws[1..])
      case Some(k) => Some(k + 1)
      case None => None
  }

  /** Index in Keywords of the word the keyword alternative matches at p. */
  function KeywordIndex(s: string, p: nat): (r: Option<nat>)
    requires p <= |s|
    ensures r.Some? ==>
      && r.value < |Keywords|
      && At(s, p, Keywords[r.value])
      && Boundary(s, p)
      && Boundary(s, p + |Keywords[r.value]|)
    ensures r.None? ==>
      forall k :: 0 <= k < |Keywords| && At(s, p, Keywords[k]) ==> !Boundary(s, p) || !Boundary(s, p + |Keywords[k]|)
  {
    if Boundary(s, p) then FirstKeyword(s, p, Keywords) else None
  }

  /** The keyword alternative at p: a boundary, a reserved word, a boundary. */
  function MatchKeyword(s: string, p: nat): (r: Option<nat>)
    requires p <= |s|
    ensures r.Some? ==> r.value >= 2 && p + r.value <= |s| && Boundary(s, p) && Boundary(s, p + r.value)
    ensures r.Some? <==> KeywordIndex(s, p).Some?
  {
    match KeywordIndex(s, p)
    case Some(k) => KeywordsAreLowerWords(); Some(|Keywords[k]|)
    case None => None
  }

  /** Inside a lower-case word there is no boundary. */
  lemma NoBoundaryInsideWord(s: string, p: nat, w: string)
    requires LowerWord(w) && At(s, p, w)
    ensures forall i :: p < i < p + |w| ==> !Boundary(s, i)
  {
    forall i | p < i < p + |w|
      ensures !Boundary(s, i)
    {
      assert s[i - 1] == w[i - 1 - p] && s[i] == w[i - p];
    }
  }

  /** Two lower-case words that both occur at p and both end at a boundary are equal. */
  lemma LowerWordsBetweenBoundaries(s: string, p: nat, v: string, w: string)
    requires |v| >= 1 && |w| >= 1 && LowerWord(v) && LowerWord(w)
    requires At(s, p, v) && At(s, p, w)
    requires Boundary(s, p + |v|) && Boundary(s, p + |w|)
    ensures v == w
  {
    NoBoundaryInsideWord(s, p, v);
    NoBoundaryInsideWord(s, p, w);
  }

  /**
    At most one reserved word sits between two boundaries at a position, so
    the order of the alternation does not matter: `in` never splits `instance`.
  */
  lemma KeywordMatchIsUnique(s: string, p: nat, k: nat)
    requires p <= |s| && k < |Keywords|
    requires At(s, p, Keywords[k]) && Boundary(s, p) && Boundary(s, p + |Keywords[k]|)
    ensures MatchKeyword(s, p) == Some(|Keywords[k]|)
  {
    KeywordsAreLowerWords();
    var j := KeywordIndex(s, p).value;
    LowerWordsBetweenBoundaries(s, p, Keywords[j], Keywords[k]);
  }

  // ---------------------------------------------------------------------
  // Operator alternative

  /** Index of the first of ops that occurs at p. */
  function FirstOperator(s: string, p: nat, ops: seq<string>): (r: Option<nat>)
    requires p <= |s|
    ensures r.Some? ==> r.value < |ops| && At(s, p, ops[r.value])
    ensures r.None? ==> forall k :: 0 <= k < |ops| ==> !At(s, p, ops[k])
  {
    if ops == [] then None
    else if At(s, p, ops[0]) then Some(0)
    else match FirstOperator(s, p, ops[1..])
      case Some(k) => Some(k + 1)
      case None => None
  }

  /** Index in Operators of the operator the operator alternative matches at p. */
  function OperatorIndex(s: string, p: nat): (r: Option<nat>)
    requires p <= |s|
    ensures r.Some? ==> r.value < |Operators| && At(s, p, Operators[r.value])
    ensures r.None? ==> forall k :: 0 <= k < |Operators| ==> !At(s, p, Operators[k])
  {
    FirstOperator(s, p, Operators)
  }

  /** The operator alternative at p. */
  function MatchOperator(s: string, p: nat): (r: Option<nat>)
    requires p <= |s|
    ensures r.Some? ==> 1 <= r.value <= 2 && p + r.value <= |s|
    ensures r.Some? <==> OperatorIndex(s, p).Some?
  {
    match OperatorIndex(s, p)
    case Some(k) => Some(|Operators[k]|)
    case None => None
  }

  /**
    No operator is a prefix of another, so at most one of them occurs at p:
    a two-character operator such as `->` is never split into two spans.
  */
  lemma OperatorMatchIsUnique(s: string, p: nat, k: nat)
    requires p <= |s| && k < |Operators| && At(s, p, Operators[k])
    ensures OperatorIndex(s, p) == Some(k)
  {
    var j := OperatorIndex(s, p).value;
    assert Operators[j][0] == s[p] == Operators[k][0];
  }

  // ---------------------------------------------------------------------
  // Capitalised-name alternative

  /** End of the maximal run of name characters that starts at i. */
  function NameRunEnd(s: string, i: nat): (e: nat)
    requires i <= |s|
    ensures i <= e <= |s|
    ensures NameRun(s, i, e)
    ensures e == |s| || !IsNameChar(s[e])
    decreases |s| - i
  {
    if i < |s| && IsNameChar(s[i]) then NameRunEnd(s, i + 1) else i
  }

  /** Backtracking from e towards lo over trailing primes. */
  function DropPrimes(s: string, lo: nat, e: nat): (q: nat)
    requires lo <= e <= |s|
    ensures lo <= q <= e
    ensures forall j :: q <= j < e ==> s[j] == '\''
    ensures q == lo || s[q - 1] != '\''
    decreases e
  {
    if e > lo && s[e - 1] == '\'' then DropPrimes(s, lo, e - 1) else e
  }

  /**
    The greedy run followed by backtracking to the first `\b`: the run
    without its trailing primes ends at a boundary, and no longer run does.
  */
  lemma TypeNameEnd(s: string, p: nat)
    requires p < |s| && IsUpper(s[p])
    ensures var e := NameRunEnd(s, p + 1);
            var q := DropPrimes(s, p + 1, e);
            && NameRun(s, p + 1, q)
            && IsWordChar(s[q - 1])
            && Boundary(s, q)
            && forall q' :: q < q' <= |s| && NameRun(s, p + 1, q') ==> !Boundary(s, q')
  {
    var e := NameRunEnd(s, p + 1);
    var q := DropPrimes(s, p + 1, e);
    assert IsWordChar(s[q - 1]);
    assert q < |s| ==> !IsWordChar(s[q]);
    forall q' | q < q' <= |s| && NameRun(s, p + 1, q')
      ensures !Boundary(s, q')
    {
      assert s[q' - 1] == '\'';
    }
  }

  /** The capitalised-name alternative at p. */
  function MatchTypeName(s: string, p: nat): (r: Option<nat>)
    requires p <= |s|
    ensures r.Some? <==> p < |s| && IsUpper(s[p]) && Boundary(s, p)
    ensures r.Some? ==>
      && r.value >= 1
      && p + r.value <= |s|
      && NameRun(s, p + 1, p + r.value)
      && IsWordChar(s[p + r.value - 1])
      && Boundary(s, p + r.value)
    ensures r.Some? ==> forall q :: p + r.value < q <= |s| && NameRun(s, p + 1, q) ==> !Boundary(s, q)
  {
    if p < |s| && IsUpper(s[p]) && Boundary(s, p) then
      TypeNameEnd(s, p);
      Some(DropPrimes(s, p + 1, NameRunEnd(s, p + 1)) - p)
    else
      None
  }

  // ---------------------------------------------------------------------
  // Quoted alternative

  /** The first prime at or after i. */
  function NextQuote(s: string, i: nat): (r: Option<nat>)
    requires i <= |s|
    ensures r.Some? ==> i <= r.value < |s| && s[r.value] == '\''
    ensures r.Some? ==> forall j :: i <= j < r.value ==> s[j] != '\''
    ensures r.None? ==> forall j :: i <= j < |s| ==> s[j] != '\''
    decreases |s| - i
  {
    if i == |s| then None
    else if s[i] == '\'' then Some(i)
    else NextQuote(s, i + 1)
  }

  /** The quoted alternative at p: a prime, anything but primes, the next prime. */
  function MatchQuoted(s: string, p: nat): (r: Option<nat>)
    requires p <= |s|
    ensures r.Some? <==> p < |s| && s[p] == '\'' && exists j :: p < j < |s| && s[j] == '\''
    ensures r.Some? ==>
      && r.value >= 2
      && p + r.value <= |s|
      && s[p + r.value - 1] == '\''
      && forall j :: p < j < p + r.value - 1 ==> s[j] != '\''
  {
    if p < |s| && s[p] == '\'' then
      match NextQuote(s, p + 1)
      case Some(j) => Some(j + 1 - p)
      case None => None
    else
      None
  }

  // ---------------------------------------------------------------------
  // The rule list

  /** One rule tried at p; `Plain` is not a rule and never matches. */
  function RuleMatch(kind: SpanKind, s: string, p: nat): Option<nat>
    requires p <= |s|
  {
    match kind
    case Keyword => MatchKeyword(s, p)
    case Operator => MatchOperator(s, p)
    case TypeName => MatchTypeName(s, p)
    case Quoted => MatchQuoted(s, p)
    case Plain => None
  }

  /** What a rule consumes lies inside the string and is never empty. */
  lemma RuleMatchBounds(kind: SpanKind, s: string, p: nat)
    requires p <= |s| && RuleMatch(kind, s, p).Some?
    ensures kind != Plain
    ensures 1 <= RuleMatch(kind, s, p).value && p + RuleMatch(kind, s, p).value <= |s|
  {
  }

  /** The first of rules, in order, that matches at p, with what it consumed. */
  function FirstMatch(s: string, p: nat, rules: seq<SpanKind>): (r: Option<Match>)
    requires p <= |s|
    ensures r.Some? ==> r.value.kind != Plain && r.value.len >= 1 && p + r.value.len <= |s|
  {
    if rules == [] then None
    else match RuleMatch(rules[0], s, p)
      case Some(n) => RuleMatchBounds(rules[0], s, p); Some(Match(rules[0], n))
      case None => FirstMatch(s, p, rules[1..])
  }

  /** What a successful rule consumed has the shape of its kind. */
  lemma RuleMatchIsShaped(kind: SpanKind, s: string, p: nat)
    requires p <= |s| && RuleMatch(kind, s, p).Some?
    ensures p + RuleMatch(kind, s, p).value <= |s|
    ensures Shaped(kind, s[p..p + RuleMatch(kind, s, p).value])
  {
    var n := RuleMatch(kind, s, p).value;
    var t := s[p..p + n];
    match kind
    case Keyword =>
      var k := KeywordIndex(s, p).value;
      assert t == Keywords[k];
    case Operator =>
      var k := OperatorIndex(s, p).value;
      assert t == Operators[k];
    case TypeName =>
      assert forall i :: 0 <= i < n ==> t[i] == s[p + i];
    case Quoted =>
      assert forall i :: 0 <= i < n ==> t[i] == s[p + i];
  }

  /**
    The regex tried at one position: the alternatives in rule order, the
    first that matches winning whatever the later ones would consume.
  */
  function MatchAt(s: string, p: nat): (r: Option<Match>)
    requires p <= |s|
    ensures r.Some? ==> r.value.kind != Plain && r.value.len >= 1 && p + r.value.len <= |s|
  {
    FirstMatch(s, p, RuleOrder)
  }

  /**
    Priority at one position: the keyword alternative wins whenever it
    matches, the operator alternative unless a keyword does, the capitalised
    name unless one of those does, and the quoted literal last; the position
    stays unmatched exactly when all four fail.
  */
  lemma MatchAtPriority(s: string, p: nat)
    requires p <= |s|
    ensures MatchKeyword(s, p).Some? ==> MatchAt(s, p) == Some(Match(Keyword, MatchKeyword(s, p).value))
    ensures MatchKeyword(s, p).None? && MatchOperator(s, p).Some? ==>
      MatchAt(s, p) == Some(Match(Operator, MatchOperator(s, p).value))
    ensures MatchKeyword(s, p).None? && MatchOperator(s, p).None? && MatchTypeName(s, p).Some? ==>
      MatchAt(s, p) == Some(Match(TypeName, MatchTypeName(s, p).value))
    ensures MatchKeyword(s, p).None? && MatchOperator(s, p).None? && MatchTypeName(s, p).None? ==>
      MatchAt(s, p) == (match MatchQuoted(s, p) case Some(n) => Some(Match(Quoted, n)) case None => None)
  {
    var r0 := RuleOrder;
    var r1 := [Operator, TypeName, Quoted];
    var r2 := [TypeName, Quoted];
    var r3 := [Quoted];
    var r4: seq<SpanKind> := [];
    assert r0[1..] == r1 && r1[1..] == r2 && r2[1..] == r3 && r3[1..] == r4;
    assert FirstMatch(s, p, r4) == None;
    assert MatchKeyword(s, p).None? ==> FirstMatch(s, p, r0) == FirstMatch(s, p, r1);
    assert MatchOperator(s, p).None? ==> FirstMatch(s, p, r1) == FirstMatch(s, p, r2);
    assert MatchTypeName(s, p).None? ==> FirstMatch(s, p, r2) == FirstMatch(s, p, r3);
  }

  /** A match at p is the named rule's own match there. */
  lemma MatchAtIsRuleMatch(s: string, p: nat)
    requires p <= |s| && MatchAt(s, p).Some?
    ensures RuleMatch(MatchAt(s, p).value.kind, s, p) == Some(MatchAt(s, p).value.len)
  {
    MatchAtPriority(s, p);
  }

  /** Every span the scanner classifies has the shape of its kind. */
  lemma MatchAtIsShaped(s: string, p: nat)
    requires p <= |s| && MatchAt(s, p).Some?
    ensures Shaped(MatchAt(s, p).value.kind, s[p..p + MatchAt(s, p).value.len])
  {
    MatchAtIsRuleMatch(s, p);
    RuleMatchIsShaped(MatchAt(s, p).value.kind, s, p);
  }
}
