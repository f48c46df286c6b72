/**
  The highlighter `highlightHaskell` of components/HaskellRef.tsx: one left
  to right scan with the combined regular expression, emitting the text
  between matches as plain spans and every match as a classified span.
  The JSX wrapper around each span is dropped; a span is its kind and text.
*/
module Tokenizer {
  import opened Options
  import opened Rules

  datatype Span = Span(kind: SpanKind, text: string)

  /** The text of the spans, in order. */
  function Texts(spans: seq<Span>): string {
    if spans == [] then "" else spans[0].text + Texts(spans[1..])
  }

  lemma {:induction false} TextsAppend(a: seq<Span>, b: seq<Span>)
    ensures Texts(a + b) == Texts(a) + Texts(b)
    decreases |a|
  {
    if a == [] {
      assert a + b == b;
    } else {
      assert (a + b)[1..] == a[1..] + b;
      TextsAppend(a[1..], b);
    }
  }

  /** t holds, for each position of s, either no match or a classified non-empty run inside s. */
  predicate Fits(s: string, t: seq<Option<Match>>) {
    && |t| == |s|
    && forall i :: 0 <= i < |t| && t[i].Some? ==>
         t[i].value.kind != Plain && t[i].value.len >= 1 && i + t[i].value.len <= |s|
  }

  /** The verdicts of the combined expression at positions i.. of s. */
  function TableFrom(s: string, i: nat): (t: seq<Option<Match>>)
    requires i <= |s|
    ensures |t| == |s| - i
    ensures forall j :: 0 <= j < |t| && t[j].Some? ==>
      t[j].value.kind != Plain && t[j].value.len >= 1 && i + j + t[j].value.len <= |s|
    decreases |s| - i
  {
    if i == |s| then [] else [MatchAt(s, i)] + TableFrom(s, i + 1)
  }

  /** The verdict of the combined expression at every position of s. */
  function MatchTable(s: string): (t: seq<Option<Match>>)
    ensures Fits(s, t)
  {
    TableFrom(s, 0)
  }

  lemma {:induction false} TableFromAt(s: string, i: nat, j: nat)
    requires i <= j < |s|
    ensures TableFrom(s, i)[j - i] == MatchAt(s, j)
    decreases j - i
  {
    if i < j {
      TableFromAt(s, i + 1, j);
    }
  }

  /** Entry j of the table is the expression's verdict at j. */
  lemma MatchTableAt(s: string, j: nat)
    requires j < |s|
    ensures MatchTable(s)[j] == MatchAt(s, j)
  {
    TableFromAt(s, 0, j);
  }

  /** Spans covering s[a..b], one span holding s[b..c], and spans covering s[c..] cover s[a..]. */
  lemma TextsThree(s: string, a: nat, b: nat, c: nat, before: seq<Span>, span: Span, rest: seq<Span>)
    requires a <= b <= c <= |s|
    requires Texts(before) == s[a..b] && span.text == s[b..c] && Texts(rest) == s[c..]
    ensures Texts(before + [span] + rest) == s[a..]
  {
    TextsAppend(before + [span], rest);
    TextsAppend(before, [span]);
    assert Texts([span]) == span.text + Texts([]);
    assert s[a..] == s[a..b] + s[b..c] + s[c..];
  }

  /** The plain span for s[last..p], if that text is not empty. */
  function PlainBefore(s: string, last: nat, p: nat): (r: seq<Span>)
    requires last <= p <= |s|
    ensures |r| <= 1
    ensures Texts(r) == s[last..p]
    ensures forall i :: 0 <= i < |r| ==> r[i].kind == Plain && r[i].text != ""
  {
    if p > last then [Span(Plain, s[last..p])] else []
  }

  /**
    The scan from position p, with s[last..p] not yet emitted: at each
    position the table says whether, and how, the expression matches. The
    spans cover exactly s[last..].
  */
  function Scan(s: string, t: seq<Option<Match>>, last: nat, p: nat): (r: seq<Span>)
    requires Fits(s, t) && last <= p <= |s|
    ensures Texts(r) == s[last..]
    ensures r == [] <==> last == |s|
    decreases |s| - p
  {
    if p == |s| then
      PlainBefore(s, last, p)
    else
      match t[p]
      case None => Scan(s, t, last, p + 1)
      case Some(m) =>
        var before := PlainBefore(s, last, p);
        var span := Span(m.kind, s[p..p + m.len]);
        var rest := Scan(s, t, p + m.len, p + m.len);
        TextsThree(s, last, p, p + m.len, before, span, rest);
        before + [span] + rest
  }

  /**
    `highlightHaskell`: the spans of the scan, or the input as one plain
    span when the scan produced none (only for the empty input).
  */
  function Highlight(code: string): (r: seq<Span>)
    ensures Texts(r) == code
    ensures code == "" ==> r == [Span(Plain, "")]
    ensures |r| >= 1
  {
    var parts := Scan(code, MatchTable(code), 0, 0);
    if |parts| > 0 then parts else [Span(Plain, code)]
  }

  /** Skipping positions where nothing matches leaves the scan unchanged. */
  lemma {:induction false} ScanSkips(s: string, t: seq<Option<Match>>, last: nat, p: nat, q: nat)
    requires Fits(s, t) && last <= p <= q <= |s|
    requires forall i :: p <= i < q ==> t[i].None?
    ensures Scan(s, t, last, p) == Scan(s, t, last, q)
    decreases q - p
  {
    if p < q {
      ScanSkips(s, t, last, p + 1, q);
    }
  }

  /** One step of the scan at a position where the expression matches. */
  lemma ScanStep(s: string, t: seq<Option<Match>>, last: nat, p: nat)
    requires Fits(s, t) && last <= p < |s| && t[p].Some?
    ensures p + t[p].value.len <= |s|
    ensures Scan(s, t, last, p) ==
      PlainBefore(s, last, p) + [Span(t[p].value.kind, s[p..p + t[p].value.len])]
        + Scan(s, t, p + t[p].value.len, p + t[p].value.len)
  {
  }

  /** From an emitted position to the next match: the gap, the match, the rest. */
  lemma ScanAdvance(s: string, t: seq<Option<Match>>, last: nat, p: nat)
    requires Fits(s, t) && last <= p < |s| && t[p].Some?
    requires forall i :: last <= i < p ==> t[i].None?
    ensures p + t[p].value.len <= |s|
    ensures Scan(s, t, last, last) ==
      PlainBefore(s, last, p) + [Span(t[p].value.kind, s[p..p + t[p].value.len])]
        + Scan(s, t, p + t[p].value.len, p + t[p].value.len)
  {
    ScanSkips(s, t, last, last, p);
    ScanStep(s, t, last, p);
  }

  /** From an emitted position with no match after it: the remaining text. */
  lemma ScanFinish(s: string, t: seq<Option<Match>>, last: nat)
    requires Fits(s, t) && last <= |s|
    requires forall i :: last <= i < |s| ==> t[i].None?
    ensures Scan(s, t, last, last) == PlainBefore(s, last, |s|)
  {
    ScanSkips(s, t, last, last, |s|);
  }

  /**
    `combined.exec(code)` with `lastIndex == from`: the first position at or
    after `from` where the expression matches, and the match found there
    (t is the table of the expression's verdicts, for the proof only).
  */
  method Exec(code: string, ghost t: seq<Option<Match>>, from: nat) returns (found: Option<(nat, Match)>)
    requires t == MatchTable(code) && from <= |code|
    ensures found.Some? ==>
      && from <= found.value.0 < |code|
      && t[found.value.0] == Some(found.value.1)
      && forall i :: from <= i < found.value.0 ==> t[i].None?
    ensures found.None? ==> forall i :: from <= i < |code| ==> t[i].None?
  {
    var p := from;
    while p < |code|
      invariant from <= p <= |code|
      invariant forall i :: from <= i < p ==> t[i].None?
    {
      var m := MatchAt(code, p);
      MatchTableAt(code, p);
      if m.Some? {
        return Some((p, m.value));
      }
      p := p + 1;
    }
    return None;
  }

  /**
    One turn of the loop of `highlightHaskell` for a match m at `index`:
    the text since the previous match when there is any, then the match;
    returns the new `lastIndex`.
  */
  method Emit(code: string, ghost t: seq<Option<Match>>, ghost goal: seq<Span>,
               parts: seq<Span>, lastIndex: nat, index: nat, m: Match)
    returns (parts': seq<Span>, lastIndex': nat)
    requires Fits(code, t) && lastIndex <= index < |code| && t[index] == Some(m)
    requires forall i :: lastIndex <= i < index ==> t[i].None?
    requires parts + Scan(code, t, lastIndex, lastIndex) == goal
    ensures lastIndex < lastIndex' <= |code|
    ensures parts' + Scan(code, t, lastIndex', lastIndex') == goal
  {
    ghost var before := PlainBefore(code, lastIndex, index);
    parts' := parts;
    if index > lastIndex {
      parts' := parts' + [Span(Plain, code[lastIndex..index])];
    }
    assert parts' == parts + before;
    var span := Span(m.kind, code[index..index + m.len]);
    lastIndex' := index + m.len;
    parts' := parts' + [span];
    assert m == t[index].value;
    EmitKeepsScan(code, t, goal, parts, lastIndex, index);
    assert parts' == parts + before + [span];
  }

  /** The emitted gap and match, followed by the scan after the match, continue the parts so far. */
  lemma EmitKeepsScan(code: string, t: seq<Option<Match>>, goal: seq<Span>, parts: seq<Span>, lastIndex: nat, index: nat)
    requires Fits(code, t) && lastIndex <= index < |code| && t[index].Some?
    requires forall i :: lastIndex <= i < index ==> t[i].None?
    requires parts + Scan(code, t, lastIndex, lastIndex) == goal
    ensures var q := index + t[index].value.len;
      q <= |code| &&
      (parts + PlainBefore(code, lastIndex, index) + [Span(t[index].value.kind, code[index..q])]) + Scan(code, t, q, q)
        == goal
  {
    var q := index + t[index].value.len;
    ScanAdvance(code, t, lastIndex, index);
    Regroup(parts, PlainBefore(code, lastIndex, index), Span(t[index].value.kind, code[index..q]), Scan(code, t, q, q));
  }

  lemma Regroup(a: seq<Span>, b: seq<Span>, x: Span, r: seq<Span>)
    ensures a + (b + [x] + r) == (a + b + [x]) + r
  {
  }

  /**
    The loop of `highlightHaskell` as written: repeated `exec`, the text
    before each match and the match, then the remaining text, and the
    `[code]` fallback when nothing was emitted.
  */
  method HighlightHaskell(code: string) returns (parts: seq<Span>)
    ensures parts == Highlight(code)
    ensures Texts(parts) == code
  {
    ghost var t := MatchTable(code);
    parts := [];
    var lastIndex := 0;
    var found := Exec(code, t, 0);
    while found.Some?
      invariant lastIndex <= |code|
      invariant found.Some? ==>
        && lastIndex <= found.value.0 < |code|
        && t[found.value.0] == Some(found.value.1)
        && forall i :: lastIndex <= i < found.value.0 ==> t[i].None?
      invariant found.None? ==> forall i :: lastIndex <= i < |code| ==> t[i].None?
      invariant parts + Scan(code, t, lastIndex, lastIndex) == Scan(code, t, 0, 0)
      decreases |code| - lastIndex
    {
      parts, lastIndex := Emit(code, t, Scan(code, t, 0, 0), parts, lastIndex, found.value.0, found.value.1);
      found := Exec(code, t, lastIndex);
    }
    ScanFinish(code, t, lastIndex);
    if lastIndex < |code| {
      parts := parts + [Span(Plain, code[lastIndex..])];
    }
    if |parts| == 0 {
      parts := [Span(Plain, code)];
    }
  }
}
