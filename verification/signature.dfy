/**
  `getSignature` of components/HaskellRef.tsx: the one-line signature shown
  in an entry's header, which the header then passes to the highlighter.
*/
module Signatures {
  import opened Options
  import opened Strings
  import opened Defs
  import opened Rules
  import opened Tokenizer
  import opened TokenizerSpec
  import opened Verdicts

  /** The `(C a, D b) => ` part of a class signature: empty unless there are constraints. */
  function ConstraintPrefix(cs: Option<seq<string>>): (r: string)
    ensures r == "" <==> !NonEmpty(cs)
    ensures NonEmpty(cs) ==>
      && |r| >= 6
      && r[0] == '('
      && r[|r| - 5..] == ") => "
      && r[1..|r| - 5] == Join(cs.value, ", ")
  {
    if NonEmpty(cs) then "(" + Join(cs.value, ", ") + ") => " else ""
  }

  /**
    `getSignature`: a value's or function's own signature; the kind, the
    name and, when the property is there at all, a space and the parameters
    of a type; `class`, the constraints, the name, the parameters and
    `where` for a type class.
  */
  function Signature(d: HaskellDef): (r: string)
    ensures d.ValueRef? ==> r == d.signature
    ensures !d.ValueRef? ==>
      var w := KindName(KindOf(d));
      |r| > |w| && r[..|w|] == w && r[|w|] == ' '
    ensures d.TypeclassRef? ==> |r| >= 6 && r[|r| - 6..] == " where"
  {
    match d
    case ValueRef(_, _, sig) => sig
    case TypeRef(k, b, ps, _, _) =>
      KindName(k) + " " + b.name + (if ps.Some? then " " + Join(ps.value, " ") else "")
    case TypeclassRef(b, ps, cs, _, _) =>
      "class " + ConstraintPrefix(cs) + b.name + " " + Join(ps, " ") + " where"
  }

  /** No character of w is a space. */
  predicate Word(w: string) {
    ' ' !in w
  }

  predicate Words(ws: seq<string>) {
    forall i :: 0 <= i < |ws| ==> Word(ws[i])
  }

  /** The space-separated words of a joined parameter list: the parameters, or one empty word for none. */
  function ParamWords(ps: seq<string>): seq<string> {
    if ps == [] then [""] else ps
  }

  lemma SplitParams(ps: seq<string>)
    requires Words(ps)
    ensures Split(Join(ps, " "), ' ') == ParamWords(ps)
  {
    if ps != [] {
      SplitJoin(ps, ' ');
    }
  }

  /**
    The words of a type's signature: its kind and name, then nothing when
    `params` is absent, the parameters when there are some, and one empty
    word (the trailing space) when `params` is present but empty.
  */
  lemma TypeSignatureWords(d: HaskellDef)
    requires d.TypeRef? && Word(d.base.name)
    requires d.params.Some? ==> Words(d.params.value)
    ensures Split(Signature(d), ' ') ==
      [KindName(d.typeKind), d.base.name] + (if d.params.Some? then ParamWords(d.params.value) else [])
  {
    if d.params.Some? {
      KindNameParamsWords(KindName(d.typeKind), d.base.name, d.params.value);
    } else {
      assert Signature(d) == KindName(d.typeKind) + " " + d.base.name;
      KindNameWords(KindName(d.typeKind), d.base.name);
    }
  }

  /** The words of `kind name`. */
  lemma KindNameWords(kw: string, name: string)
    requires Word(kw) && Word(name)
    ensures Split(kw + " " + name, ' ') == [kw, name]
  {
    assert kw + " " + name == kw + [' '] + name;
    SplitPiece(kw, ' ', name);
    SplitWithout(name, ' ');
  }

  /** The words of `kind name params`. */
  lemma KindNameParamsWords(kw: string, name: string, ps: seq<string>)
    requires Word(kw) && Word(name) && Words(ps)
    ensures Split(kw + " " + name + (" " + Join(ps, " ")), ' ') == [kw, name] + ParamWords(ps)
  {
    var rest := Join(ps, " ");
    var t1 := name + [' '] + rest;
    assert kw + " " + name + (" " + rest) == kw + [' '] + t1;
    SplitParams(ps);
    SplitPiece(name, ' ', rest);
    assert Split(t1, ' ') == [name] + ParamWords(ps);
    SplitPiece(kw, ' ', t1);
  }

  /** `params: []` is not the same as no `params`: it leaves a trailing space. */
  lemma EmptyParamsLeaveTrailingSpace(d: HaskellDef)
    requires d.TypeRef?
    ensures Signature(d.(params := Some([]))) == Signature(d.(params := None)) + " "
    ensures Signature(d.(params := Some([]))) != Signature(d.(params := None))
  {
  }

  /** Absent and empty constraints give the same class signature. */
  lemma AbsentOrEmptyConstraints(d: HaskellDef)
    requires d.TypeclassRef?
    ensures Signature(d.(constraints := None)) == Signature(d.(constraints := Some([])))
  {
  }

  /**
    The words of a class signature without constraints: `class`, the name,
    the parameters (one empty word for none, from the doubled space), `where`.
  */
  lemma ClassSignatureWords(d: HaskellDef)
    requires d.TypeclassRef? && !NonEmpty(d.constraints)
    requires Word(d.base.name) && Words(d.classParams)
    ensures Split(Signature(d), ' ') == ["class", d.base.name] + ParamWords(d.classParams) + ["where"]
  {
    var rest := Join(d.classParams, " ");
    assert Signature(d) == "class " + d.base.name + " " + rest + " where";
    assert "class " == "class" + [' '] && " where" == [' '] + "where";
    SpacedWords("class", d.base.name, rest, "where");
    OuterWords("class", d.base.name, d.classParams, "where");
  }

  /** The words of `first name params last`. */
  lemma OuterWords(first: string, name: string, ps: seq<string>, last: string)
    requires Word(first) && Word(name) && Words(ps) && Word(last)
    ensures Split(first + [' '] + (name + [' '] + (Join(ps, " ") + [' '] + last)), ' ')
      == [first, name] + ParamWords(ps) + [last]
  {
    var t2 := Join(ps, " ") + [' '] + last;
    var t1 := name + [' '] + t2;
    ParamsThenWord(ps, last);
    SplitPiece(name, ' ', t2);
    assert Split(t1, ' ') == [name] + (ParamWords(ps) + [last]);
    SplitPiece(first, ' ', t1);
  }

  /** Four words with a space after each of the first three, grouped from the right. */
  lemma SpacedWords(a: string, b: string, c: string, e: string)
    ensures (a + [' ']) + b + [' '] + c + ([' '] + e) == a + [' '] + (b + [' '] + (c + [' '] + e))
  {
  }

  /** The words of `params last`. */
  lemma ParamsThenWord(ps: seq<string>, last: string)
    requires Words(ps) && Word(last)
    ensures Split(Join(ps, " ") + [' '] + last, ' ') == ParamWords(ps) + [last]
  {
    SplitWithout(last, ' ');
    if ps == [] {
      assert Join(ps, " ") + [' '] + last == [] + [' '] + last;
      SplitPiece([], ' ', last);
    } else {
      JoinAppend(ps, last, " ");
      assert Words(ps + [last]) by {
        forall i | 0 <= i < |ps + [last]|
          ensures Word((ps + [last])[i])
        {
          if i < |ps| {
            assert (ps + [last])[i] == ps[i];
          }
        }
      }
      SplitJoin(ps + [last], ' ');
    }
  }

  /** Joining one more element appends the separator and the element. */
  lemma {:induction false} JoinAppend(xs: seq<string>, x: string, sep: string)
    requires |xs| >= 1
    ensures Join(xs + [x], sep) == Join(xs, sep) + sep + x
    decreases |xs|
  {
    if |xs| == 1 {
      assert (xs + [x])[1..] == [x];
    } else {
      JoinAppend(xs[1..], x, sep);
      assert (xs + [x])[1..] == xs[1..] + [x];
    }
  }

  /**
    The constraint part is shown exactly when there are constraints: the
    character after `class ` opens a parenthesis only then.
  */
  lemma ConstraintsShownIffPresent(d: HaskellDef)
    requires d.TypeclassRef? && |d.base.name| > 0 && d.base.name[0] != '('
    ensures Signature(d)[6] == '(' <==> NonEmpty(d.constraints)
  {
  }

  /**
    Constraints only insert their prefix after `class `: the rest of a
    class signature is the one it has without constraints.
  */
  lemma ConstraintsInsertPrefix(d: HaskellDef)
    requires d.TypeclassRef?
    ensures var bare := Signature(d.(constraints := None));
      var p := ConstraintPrefix(d.constraints);
      && |bare| >= 6
      && Signature(d) == bare[..6] + p + bare[6..]
      && bare[..6] == "class "
  {
    var rest := d.base.name + " " + Join(d.classParams, " ") + " where";
    var bare := d.(constraints := None);
    ClassSignatureAround(d, rest);
    ClassSignatureAround(bare, rest);
    assert "class " + ConstraintPrefix(bare.constraints) + rest == "class " + rest;
    InsertBetween(Signature(d), Signature(bare), "class ", ConstraintPrefix(d.constraints), rest);
  }

  /** A class signature: `class `, the constraint prefix, then the name, parameters and `where`. */
  lemma ClassSignatureAround(d: HaskellDef, rest: string)
    requires d.TypeclassRef? && rest == d.base.name + " " + Join(d.classParams, " ") + " where"
    ensures Signature(d) == "class " + ConstraintPrefix(d.constraints) + rest
  {
  }

  /** Text inserted between a head and a tail, read against the head followed directly by the tail. */
  lemma InsertBetween(full: string, bare: string, a: string, p: string, rest: string)
    requires full == a + p + rest && bare == a + rest
    ensures |bare| >= |a| && bare[..|a|] == a
    ensures full == bare[..|a|] + p + bare[|a|..]
  {
    assert bare[|a|..] == rest;
  }

  /** The index in the keyword list of the word that opens a type or class signature. */
  function KeywordOf(k: Kind): (i: nat)
    requires k != Value && k != Function
    ensures i < |Keywords| && Keywords[i] == KindName(k)
  {
    match k
    case Type => 1
    case Newtype => 2
    case Data => 0
    case Class => 3
  }

  /** The highlighted header of a type or class opens with its kind as a keyword span. */
  lemma SignatureOpensWithKeyword(d: HaskellDef)
    requires !d.ValueRef?
    ensures Highlight(Signature(d))[0] == Span(Keyword, KindName(KindOf(d)))
  {
    var s := Signature(d);
    var w := KindName(KindOf(d));
    var i := KeywordOf(KindOf(d));
    assert At(s, 0, Keywords[i]);
    assert IsWordChar(s[|w| - 1]);
    KeywordAt(s, 0, i);
    HighlightStartsWithMatch(s);
  }
}
