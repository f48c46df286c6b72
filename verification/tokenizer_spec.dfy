/**
  What the highlighter's output is, independently of how the scan loop
  produces it: a partition of the input into non-empty spans in which every
  classified span is exactly what the combined expression matches at its
  start, every plain span is a maximal stretch of positions where the
  expression matches nothing, and no two plain spans are adjacent. There is
  exactly one such partition, and `Highlight` returns it.
*/
module TokenizerSpec {
  import opened Options
  import opened Rules
  import opened Tokenizer

  /**
    spans partitions s[o..] as described above, reading the expression's
    verdict at each position from t.
  */
  ghost predicate TokenizesWith(s: string, t: seq<Option<Match>>, o: nat, spans: seq<Span>)
    requires Fits(s, t) && o <= |s|
    decreases |spans|
  {
    if spans == [] then o == |s|
    else
      var sp := spans[0];
      var e := o + |sp.text|;
      && |sp.text| > 0
      && e <= |s|
      && s[o..e] == sp.text
      && (if sp.kind == Plain then
            && (forall i :: o <= i < e ==> t[i].None?)
            && (|spans| > 1 ==> spans[1].kind != Plain)
          else
            t[o] == Some(Match(sp.kind, |sp.text|)))
      && TokenizesWith(s, t, e, spans[1..])
  }

  /** spans is the leftmost, rule-ordered tokenization of the whole of s. */
  ghost predicate Tokenizes(s: string, spans: seq<Span>) {
    TokenizesWith(s, MatchTable(s), 0, spans)
  }

  /** A match at p followed by a tokenization of what follows it. */
  lemma TokenizesMatch(s: string, t: seq<Option<Match>>, p: nat, rest: seq<Span>)
    requires Fits(s, t) && p < |s| && t[p].Some?
    requires TokenizesWith(s, t, p + t[p].value.len, rest)
    ensures TokenizesWith(s, t, p, [Span(t[p].value.kind, s[p..p + t[p].value.len])] + rest)
  {
    var spans := [Span(t[p].value.kind, s[p..p + t[p].value.len])] + rest;
    assert spans[1..] == rest;
  }

  /** A gap of unmatched positions followed by a tokenization that starts with a match. */
  lemma TokenizesGap(s: string, t: seq<Option<Match>>, last: nat, p: nat, rest: seq<Span>)
    requires Fits(s, t) && last < p <= |s|
    requires forall i :: last <= i < p ==> t[i].None?
    requires TokenizesWith(s, t, p, rest)
    requires rest != [] ==> rest[0].kind != Plain
    ensures TokenizesWith(s, t, last, [Span(Plain, s[last..p])] + rest)
  {
    var spans := [Span(Plain, s[last..p])] + rest;
    assert spans[1..] == rest;
  }

  /** The pending gap, the match and a tokenization of what follows make a tokenization. */
  lemma GapMatchTokenizes(s: string, t: seq<Option<Match>>, last: nat, p: nat, rest: seq<Span>)
    requires Fits(s, t) && last <= p < |s| && t[p].Some?
    requires forall i :: last <= i < p ==> t[i].None?
    requires TokenizesWith(s, t, p + t[p].value.len, rest)
    ensures TokenizesWith(s, t, last, PlainBefore(s, last, p) + [Span(t[p].value.kind, s[p..p + t[p].value.len])] + rest)
  {
    var span := Span(t[p].value.kind, s[p..p + t[p].value.len]);
    TokenizesMatch(s, t, p, rest);
    if last < p {
      TokenizesGap(s, t, last, p, [span] + rest);
      assert [Span(Plain, s[last..p])] + [span] + rest == [Span(Plain, s[last..p])] + ([span] + rest);
    } else {
      assert PlainBefore(s, last, p) + [span] + rest == [span] + rest;
    }
  }

  /** The scan step at a match keeps the tokenization, given that the scan after the match is one. */
  lemma ScanTokenizesAtMatch(s: string, t: seq<Option<Match>>, last: nat, p: nat)
    requires Fits(s, t) && last <= p < |s| && t[p].Some?
    requires forall i :: last <= i < p ==> t[i].None?
    requires var q := p + t[p].value.len; TokenizesWith(s, t, q, Scan(s, t, q, q))
    ensures TokenizesWith(s, t, last, Scan(s, t, last, p))
  {
    var q := p + t[p].value.len;
    ScanStep(s, t, last, p);
    GapMatchTokenizes(s, t, last, p, Scan(s, t, q, q));
  }

  /** The scan yields a tokenization of what it has not yet emitted. */
  lemma {:induction false} ScanTokenizes(s: string, t: seq<Option<Match>>, last: nat, p: nat)
    requires Fits(s, t) && last <= p <= |s|
    requires forall i :: last <= i < p ==> t[i].None?
    ensures TokenizesWith(s, t, last, Scan(s, t, last, p))
    decreases |s| - p
  {
    if p == |s| {
      if last < p {
        TokenizesGap(s, t, last, p, []);
        assert [Span(Plain, s[last..p])] + [] == Scan(s, t, last, p);
      }
    } else if t[p].None? {
      ScanTokenizes(s, t, last, p + 1);
    } else {
      var q := p + t[p].value.len;
      ScanTokenizes(s, t, q, q);
      ScanTokenizesAtMatch(s, t, last, p);
    }
  }

  /** At most one sequence of spans tokenizes s[o..]. */
  lemma {:induction false} TokenizesUnique(s: string, t: seq<Option<Match>>, o: nat, a: seq<Span>, b: seq<Span>)
    requires Fits(s, t) && o <= |s|
    requires TokenizesWith(s, t, o, a) && TokenizesWith(s, t, o, b)
    ensures a == b
    decreases |a|
  {
    if a != [] && b != [] {
      var ea := o + |a[0].text|;
      var eb := o + |b[0].text|;
      if a[0].kind == Plain && b[0].kind == Plain {
        PlainRunEnds(s, t, o, a);
        PlainRunEnds(s, t, o, b);
      }
      assert a[0] == b[0] by {
        assert a[0].text == s[o..ea] && b[0].text == s[o..eb];
      }
      TokenizesUnique(s, t, ea, a[1..], b[1..]);
      assert a == [a[0]] + a[1..] && b == [b[0]] + b[1..];
    }
  }

  /**
    A leading plain span ends exactly at the next position where the
    expression matches, or at the end of the input.
  */
  lemma PlainRunEnds(s: string, t: seq<Option<Match>>, o: nat, spans: seq<Span>)
    requires Fits(s, t) && o <= |s| && TokenizesWith(s, t, o, spans)
    requires spans != [] && spans[0].kind == Plain
    ensures var e := o + |spans[0].text|;
      && (forall i :: o <= i < e ==> t[i].None?)
      && (e == |s| || t[e].Some?)
  {
    var e := o + |spans[0].text|;
    if |spans| > 1 {
      assert spans[1..][0] == spans[1];
    }
  }

  /** The highlighter's output is a tokenization of its input. */
  lemma HighlightTokenizes(s: string)
    requires s != ""
    ensures Tokenizes(s, Highlight(s))
  {
    ScanTokenizes(s, MatchTable(s), 0, 0);
  }

  /** Any non-empty input is tokenized by its highlighting; the empty input gives one empty plain span. */
  lemma HighlightTokenizesAny(s: string)
    ensures s != "" ==> Tokenizes(s, Highlight(s))
    ensures s == "" ==> Highlight(s) == [Span(Plain, "")]
  {
    if s != "" {
      HighlightTokenizes(s);
    }
  }

  /**
    Characterisation: for non-empty input, a sequence of spans is the
    highlighter's output if and only if it is a tokenization.
  */
  lemma HighlightIsTheTokenization(s: string, spans: seq<Span>)
    requires s != ""
    ensures Tokenizes(s, spans) <==> spans == Highlight(s)
  {
    HighlightTokenizes(s);
    if Tokenizes(s, spans) {
      TokenizesUnique(s, MatchTable(s), 0, spans, Highlight(s));
    }
  }

  /** Where span i starts in the text the spans cover. */
  function Start(spans: seq<Span>, i: nat): nat
    requires i <= |spans|
  {
    |Texts(spans[..i])|
  }

  /** Each span of a tokenization, seen at its own position in the input. */
  lemma {:induction false} TokenizesPositions(s: string, t: seq<Option<Match>>, o: nat, spans: seq<Span>, i: nat)
    requires Fits(s, t) && o <= |s| && TokenizesWith(s, t, o, spans)
    requires i < |spans|
    ensures var st := o + Start(spans, i);
      var sp := spans[i];
      && |sp.text| > 0
      && st + |sp.text| <= |s|
      && s[st..st + |sp.text|] == sp.text
      && (sp.kind == Plain ==> forall j :: st <= j < st + |sp.text| ==> t[j].None?)
      && (sp.kind != Plain ==> t[st] == Some(Match(sp.kind, |sp.text|)))
      && (sp.kind == Plain && i + 1 < |spans| ==> spans[i + 1].kind != Plain)
    decreases i
  {
    if i > 0 {
      var e := o + |spans[0].text|;
      TokenizesPositions(s, t, e, spans[1..], i - 1);
      assert spans[..i] == [spans[0]] + spans[1..][..i - 1];
      assert Texts(spans[..i]) == spans[0].text + Texts(spans[1..][..i - 1]);
    }
  }

  /** Each span of a tokenization of the whole input, with the table's verdicts read as the expression's. */
  lemma TokenizationSpanAt(s: string, spans: seq<Span>, i: nat)
    requires Tokenizes(s, spans) && i < |spans|
    ensures var st := Start(spans, i);
      var sp := spans[i];
      && |sp.text| > 0
      && st + |sp.text| <= |s|
      && s[st..st + |sp.text|] == sp.text
      && (sp.kind == Plain ==> forall j :: st <= j < st + |sp.text| ==> MatchAt(s, j).None?)
      && (sp.kind != Plain ==> MatchAt(s, st) == Some(Match(sp.kind, |sp.text|)))
      && (sp.kind == Plain && i + 1 < |spans| ==> spans[i + 1].kind != Plain)
  {
    var t := MatchTable(s);
    TokenizesPositions(s, t, 0, spans, i);
    var st := Start(spans, i);
    var sp := spans[i];
    if sp.kind == Plain {
      forall j | st <= j < st + |sp.text|
        ensures MatchAt(s, j).None?
      {
        MatchTableAt(s, j);
      }
    } else {
      MatchTableAt(s, st);
    }
  }

  /** A classified span of a tokenization has the shape of its kind. */
  lemma TokenizationSpanShaped(s: string, spans: seq<Span>, i: nat)
    requires Tokenizes(s, spans) && i < |spans|
    ensures Shaped(spans[i].kind, spans[i].text)
  {
    var t := MatchTable(s);
    TokenizesPositions(s, t, 0, spans, i);
    var st := Start(spans, i);
    var sp := spans[i];
    if sp.kind != Plain {
      MatchTableAt(s, st);
      MatchAtIsShaped(s, st);
      assert s[st..st + MatchAt(s, st).value.len] == sp.text;
    }
  }

  /**
    Each span of the highlighter's output, at the position where it starts:
    a classified span is exactly the combined expression's match there and
    has the shape of its kind; a plain span covers only positions where the
    expression matches nothing and is never followed by another plain span.
  */
  lemma HighlightSpansAtTheirPositions(s: string, i: nat)
    requires s != "" && i < |Highlight(s)|
    ensures var spans := Highlight(s);
      var st := Start(spans, i);
      var sp := spans[i];
      && |sp.text| > 0
      && st + |sp.text| <= |s|
      && s[st..st + |sp.text|] == sp.text
      && Shaped(sp.kind, sp.text)
      && (sp.kind == Plain ==> forall j :: st <= j < st + |sp.text| ==> MatchAt(s, j).None?)
      && (sp.kind != Plain ==> MatchAt(s, st) == Some(Match(sp.kind, |sp.text|)))
      && (sp.kind == Plain && i + 1 < |spans| ==> spans[i + 1].kind != Plain)
  {
    HighlightTokenizes(s);
    TokenizationSpanAt(s, Highlight(s), i);
    TokenizationSpanShaped(s, Highlight(s), i);
  }

  /** When the expression matches at the very start, the first span is that match. */
  lemma HighlightStartsWithMatch(s: string)
    requires s != "" && MatchAt(s, 0).Some?
    ensures var m := MatchAt(s, 0).value;
      Highlight(s)[0] == Span(m.kind, s[..m.len])
  {
    HighlightSpansAtTheirPositions(s, 0);
    assert Highlight(s)[..0] == [];
  }
}
