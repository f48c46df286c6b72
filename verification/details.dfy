/**
  What an entry of components/HaskellRef.tsx can show besides its signature:
  `hasDetails`, which decides whether the entry gets an Expand button, the
  badges of its header row, and the sections of its details panel, each
  gated by its own condition.
*/
module Details {
  import opened Options
  import opened Strings
  import opened Defs
  import opened Tokenizer
  import opened TokenizerSpec

  /**
    `hasDetails`: a truthy description, example, module, since or
    deprecated; constructors or instances on a type, newtype or data
    declaration; methods or laws on a type class. Text is truthy when it is
    there and not empty; a list when it is there and not empty.
  */
  function HasDetails(d: HaskellDef): (r: bool)
    ensures r <==> !Bare(d)
    ensures !r ==> HeaderBadges(d) == []
  {
    var b := d.base;
    if Present(b.description) || Present(b.example) || Present(b.moduleName)
       || Present(b.since) || Present(b.deprecated) then
      true
    else if d.TypeRef? && (NonEmpty(d.constructors) || NonEmpty(d.instances)) then
      true
    else if d.TypeclassRef? && (|d.methods| > 0 || NonEmpty(d.laws)) then
      true
    else
      false
  }

  /**
    Every optional property of d that `hasDetails` reads is absent or empty:
    its own texts, and the lists its variant carries.
  */
  predicate Bare(d: HaskellDef) {
    var b := d.base;
    && !Present(b.description) && !Present(b.example) && !Present(b.moduleName)
    && !Present(b.since) && !Present(b.deprecated)
    && (d.TypeRef? ==> !NonEmpty(d.constructors) && !NonEmpty(d.instances))
    && (d.TypeclassRef? ==> d.methods == [] && !NonEmpty(d.laws))
  }

  /** The badges at the right of the header row, shown whether or not the entry is expanded. */
  datatype HeaderBadge = DeprecatedBadge | SinceBadge(since: string)

  function HeaderBadges(d: HaskellDef): (r: seq<HeaderBadge>)
    ensures DeprecatedBadge in r <==> Present(d.base.deprecated)
    ensures (exists v :: SinceBadge(v) in r) <==> Present(d.base.since)
    ensures Present(d.base.since) ==> SinceBadge(d.base.since.value) in r
    ensures forall v :: SinceBadge(v) in r ==> d.base.since == Some(v)
    ensures |r| <= 2 && (|r| == 2 ==> r[0] == DeprecatedBadge && r[1].SinceBadge?)
  {
    var b := d.base;
    (if Present(b.deprecated) then [DeprecatedBadge] else [])
      + (if Present(b.since) then [SinceBadge(b.since.value)] else [])
  }

  /**
    A constructor as the Constructors section shows it: its name, its fields
    when the property is there (even an empty list), its arguments joined
    by spaces when the property is there.
  */
  datatype ConstructorView = ConstructorView(name: string, fields: Option<seq<Field>>, args: Option<string>)

  /** A method as the Methods section shows it: name, default badge, highlighted signature, description. */
  datatype MethodView = MethodView(name: string, defaultBadge: bool, signature: seq<Span>, description: Option<string>)

  /**
    The sections of the details panel, each with what it displays: a text
    of the entry as it is, or the views of the items of one of its lists.
  */
  datatype Section =
    | ModuleSection(moduleName: string)
    | DescriptionSection(description: string)
    | ConstructorsSection(constructors: seq<ConstructorView>)
    | InstancesSection(instances: seq<seq<Span>>)
    | MethodsSection(methods: seq<MethodView>)
    | LawsSection(laws: seq<string>)
    | ExampleSection(example: string)

  /** Section s displays d's own property: its text as it is, or the views of its own list. */
  predicate DisplaysOwn(d: HaskellDef, s: Section) {
    match s
    case ModuleSection(m) => d.base.moduleName == Some(m)
    case DescriptionSection(x) => d.base.description == Some(x)
    case ConstructorsSection(vs) => d.TypeRef? && d.constructors.Some? && vs == ShowConstructors(d.constructors.value)
    case InstancesSection(hs) => d.TypeRef? && d.instances.Some? && hs == ShowInstances(d.instances.value)
    case MethodsSection(vs) => d.TypeclassRef? && vs == ShowMethods(d.methods)
    case LawsSection(ls) => d.TypeclassRef? && d.laws == Some(ls)
    case ExampleSection(x) => d.base.example == Some(x)
  }

  /** The place of a section in the panel, from top to bottom. */
  function Rank(s: Section): nat {
    match s
    case ModuleSection(_) => 0
    case DescriptionSection(_) => 1
    case ConstructorsSection(_) => 2
    case InstancesSection(_) => 3
    case MethodsSection(_) => 4
    case LawsSection(_) => 5
    case ExampleSection(_) => 6
  }

  /** Sections strictly in panel order: each appears at most once, and above every later one. */
  predicate InPanelOrder(ss: seq<Section>) {
    forall i, j :: 0 <= i < j < |ss| ==> Rank(ss[i]) < Rank(ss[j])
  }

  /** Some section of ss is at panel place k. */
  predicate ShowsAt(ss: seq<Section>, k: nat) {
    exists i :: 0 <= i < |ss| && Rank(ss[i]) == k
  }

  function ShowConstructor(c: Constructor): (v: ConstructorView)
    ensures v.name == c.name && v.fields == c.fields
    ensures v.args.Some? <==> c.args.Some?
  {
    ConstructorView(c.name, c.fields, if c.args.Some? then Some(Join(c.args.value, " ")) else None)
  }

  /** The arguments a constructor shows read back as its arguments when there are some and none has a space. */
  lemma ConstructorArgsReadBack(c: Constructor)
    requires c.args.Some? && |c.args.value| > 0
    requires forall i :: 0 <= i < |c.args.value| ==> ' ' !in c.args.value[i]
    ensures Split(ShowConstructor(c).args.value, ' ') == c.args.value
  {
    SplitJoin(c.args.value, ' ');
  }

  function ShowMethod(m: Method): (v: MethodView)
    ensures v.name == m.name
    ensures Texts(v.signature) == m.signature
    ensures v.defaultBadge <==> m.isDefault == Some(true)
    ensures v.description.Some? <==> Present(m.description)
    ensures m.signature != "" ==> Tokenizes(m.signature, v.signature)
  {
    HighlightTokenizesAny(m.signature);
    MethodView(m.name, m.isDefault == Some(true), Highlight(m.signature),
      if Present(m.description) then m.description else None)
  }

  function ShowConstructors(cs: seq<Constructor>): (r: seq<ConstructorView>)
    ensures |r| == |cs|
    ensures forall i :: 0 <= i < |cs| ==> r[i] == ShowConstructor(cs[i])
  {
    seq(|cs|, i requires 0 <= i < |cs| => ShowConstructor(cs[i]))
  }

  function ShowMethods(ms: seq<Method>): (r: seq<MethodView>)
    ensures |r| == |ms|
    ensures forall i :: 0 <= i < |ms| ==> r[i] == ShowMethod(ms[i])
  {
    seq(|ms|, i requires 0 <= i < |ms| => ShowMethod(ms[i]))
  }

  /** Every instance declaration, through the highlighter. */
  function ShowInstances(xs: seq<string>): (r: seq<seq<Span>>)
    ensures |r| == |xs|
    ensures forall i :: 0 <= i < |xs| ==> Texts(r[i]) == xs[i]
    ensures forall i :: 0 <= i < |xs| && xs[i] != "" ==> Tokenizes(xs[i], r[i])
  {
    HighlightsTokenize(xs);
    seq(|xs|, i requires 0 <= i < |xs| => Highlight(xs[i]))
  }

  lemma HighlightsTokenize(xs: seq<string>)
    ensures forall i :: 0 <= i < |xs| && xs[i] != "" ==> Tokenizes(xs[i], Highlight(xs[i]))
  {
    forall i | 0 <= i < |xs| && xs[i] != ""
      ensures Tokenizes(xs[i], Highlight(xs[i]))
    {
      HighlightTokenizes(xs[i]);
    }
  }

  /**
    The seven places of the panel, each holding its section when its gate
    holds: module, description, constructors (data and newtype only),
    instances (type, newtype and data), methods and laws (type classes),
    example, each only when its value is truthy.
  */
  function Candidates(d: HaskellDef): (cs: seq<Option<Section>>)
    ensures |cs| == 7 && Placed(cs, 0)
    ensures forall i :: 0 <= i < |cs| && cs[i].Some? ==> DisplaysOwn(d, cs[i].value)
  {
    [ModulePlace(d), DescriptionPlace(d), ConstructorsPlace(d), InstancesPlace(d),
     MethodsPlace(d), LawsPlace(d), ExamplePlace(d)]
  }

  /** A candidate for place k that, when present, displays d's own property there. */
  predicate FitsPlace(d: HaskellDef, o: Option<Section>, k: nat) {
    o.Some? ==> Rank(o.value) == k && DisplaysOwn(d, o.value)
  }

  function ModulePlace(d: HaskellDef): (o: Option<Section>)
    ensures FitsPlace(d, o, 0) && (o.Some? <==> Present(d.base.moduleName))
  {
    if Present(d.base.moduleName) then Some(ModuleSection(d.base.moduleName.value)) else None
  }

  function DescriptionPlace(d: HaskellDef): (o: Option<Section>)
    ensures FitsPlace(d, o, 1) && (o.Some? <==> Present(d.base.description))
  {
    if Present(d.base.description) then Some(DescriptionSection(d.base.description.value)) else None
  }

  /** Constructors are listed for data and newtype declarations only. */
  function ConstructorsPlace(d: HaskellDef): (o: Option<Section>)
    ensures FitsPlace(d, o, 2) && (o.Some? <==> (KindOf(d) == Data || KindOf(d) == Newtype) && NonEmpty(d.constructors))
  {
    if (KindOf(d) == Data || KindOf(d) == Newtype) && NonEmpty(d.constructors)
    then Some(ConstructorsSection(ShowConstructors(d.constructors.value))) else None
  }

  function InstancesPlace(d: HaskellDef): (o: Option<Section>)
    ensures FitsPlace(d, o, 3) && (o.Some? <==> d.TypeRef? && NonEmpty(d.instances))
  {
    if d.TypeRef? && NonEmpty(d.instances) then Some(InstancesSection(ShowInstances(d.instances.value))) else None
  }

  function MethodsPlace(d: HaskellDef): (o: Option<Section>)
    ensures FitsPlace(d, o, 4) && (o.Some? <==> d.TypeclassRef? && |d.methods| > 0)
  {
    if d.TypeclassRef? && |d.methods| > 0 then Some(MethodsSection(ShowMethods(d.methods))) else None
  }

  function LawsPlace(d: HaskellDef): (o: Option<Section>)
    ensures FitsPlace(d, o, 5) && (o.Some? <==> d.TypeclassRef? && NonEmpty(d.laws))
  {
    if d.TypeclassRef? && NonEmpty(d.laws) then Some(LawsSection(d.laws.value)) else None
  }

  function ExamplePlace(d: HaskellDef): (o: Option<Section>)
    ensures FitsPlace(d, o, 6) && (o.Some? <==> Present(d.base.example))
  {
    if Present(d.base.example) then Some(ExampleSection(d.base.example.value)) else None
  }

  /** Every section present in cs sits at its own place, counting places from `from`. */
  predicate Placed(cs: seq<Option<Section>>, from: nat) {
    forall i :: 0 <= i < |cs| && cs[i].Some? ==> Rank(cs[i].value) == from + i
  }

  /** The section, if there is one. */
  function Optional(o: Option<Section>): (r: seq<Section>)
    ensures |r| <= 1 && (o.Some? <==> |r| == 1) && (o.Some? ==> r[0] == o.value)
  {
    if o.Some? then [o.value] else []
  }

  /** The sections present, top to bottom. */
  function Somes(cs: seq<Option<Section>>): seq<Section>
    decreases |cs|
  {
    if cs == [] then [] else Optional(cs[0]) + Somes(cs[1..])
  }

  lemma PlacedTail(cs: seq<Option<Section>>, from: nat)
    requires cs != [] && Placed(cs, from)
    ensures Placed(cs[1..], from + 1)
  {
    forall i | 0 <= i < |cs[1..]| && cs[1..][i].Some?
      ensures Rank(cs[1..][i].value) == from + 1 + i
    {
      assert cs[1..][i] == cs[i + 1];
    }
  }

  /** The sections of placed candidates are in panel order and lie within their places. */
  lemma {:induction false} SomesInOrder(cs: seq<Option<Section>>, from: nat)
    requires Placed(cs, from)
    ensures InPanelOrder(Somes(cs))
    ensures forall i :: 0 <= i < |Somes(cs)| ==> from <= Rank(Somes(cs)[i]) < from + |cs|
    decreases |cs|
  {
    if cs != [] {
      PlacedTail(cs, from);
      SomesInOrder(cs[1..], from + 1);
      var here := Optional(cs[0]);
      var rest := Somes(cs[1..]);
      assert Somes(cs) == here + rest;
      assert forall i :: |here| <= i < |here + rest| ==> (here + rest)[i] == rest[i - |here|];
    }
  }

  /** A place shown in a concatenation is shown in one of its parts. */
  lemma ShowsAtConcat(a: seq<Section>, b: seq<Section>, j: nat)
    ensures ShowsAt(a + b, j) <==> ShowsAt(a, j) || ShowsAt(b, j)
  {
    if ShowsAt(a + b, j) {
      var i :| 0 <= i < |a + b| && Rank((a + b)[i]) == j;
      if i >= |a| {
        assert b[i - |a|] == (a + b)[i];
      }
    }
    if ShowsAt(b, j) {
      var i :| 0 <= i < |b| && Rank(b[i]) == j;
      assert (a + b)[|a| + i] == b[i];
    }
    if ShowsAt(a, j) {
      var i :| 0 <= i < |a| && Rank(a[i]) == j;
      assert (a + b)[i] == a[i];
    }
  }

  /** A place is shown exactly when its candidate is present. */
  lemma {:induction false} SomesShows(cs: seq<Option<Section>>, from: nat, j: nat)
    requires Placed(cs, from)
    ensures ShowsAt(Somes(cs), j) <==> from <= j < from + |cs| && cs[j - from].Some?
    decreases |cs|
  {
    if cs != [] {
      PlacedTail(cs, from);
      SomesShows(cs[1..], from + 1, j);
      var here := Optional(cs[0]);
      ShowsAtConcat(here, Somes(cs[1..]), j);
      if j > from && j < from + |cs| {
        assert cs[1..][j - from - 1] == cs[j - from];
      }
      if ShowsAt(here, j) {
        assert Rank(here[0]) == j;
      }
      if j == from && cs[0].Some? {
        assert Rank(here[0]) == j;
      }
    }
  }

  /** The sections are all absent exactly when none is present. */
  lemma {:induction false} SomesEmpty(cs: seq<Option<Section>>)
    ensures Somes(cs) == [] <==> forall i :: 0 <= i < |cs| ==> cs[i].None?
    decreases |cs|
  {
    if cs != [] {
      SomesEmpty(cs[1..]);
      assert forall i :: 1 <= i < |cs| ==> cs[i] == cs[1..][i - 1];
    }
  }

  /** The sections present display what their candidates display. */
  lemma {:induction false} SomesDisplayOwn(d: HaskellDef, cs: seq<Option<Section>>)
    requires forall i :: 0 <= i < |cs| && cs[i].Some? ==> DisplaysOwn(d, cs[i].value)
    ensures forall i :: 0 <= i < |Somes(cs)| ==> DisplaysOwn(d, Somes(cs)[i])
    decreases |cs|
  {
    if cs != [] {
      assert forall i :: 0 <= i < |cs[1..]| ==> cs[1..][i] == cs[i + 1];
      SomesDisplayOwn(d, cs[1..]);
      var here := Optional(cs[0]);
      var rest := Somes(cs[1..]);
      assert Somes(cs) == here + rest;
      assert forall i :: |here| <= i < |here + rest| ==> (here + rest)[i] == rest[i - |here|];
    }
  }

  /**
    The details panel: every section whose gate holds, in panel order, each
    displaying the entry's own property.
  */
  function PanelSections(d: HaskellDef): (r: seq<Section>)
    ensures InPanelOrder(r)
    ensures forall i :: 0 <= i < |r| ==> DisplaysOwn(d, r[i])
  {
    SomesInOrder(Candidates(d), 0);
    SomesDisplayOwn(d, Candidates(d));
    Somes(Candidates(d))
  }

  /** Each section is shown exactly when its gate in the component holds. */
  lemma SectionGates(d: HaskellDef)
    ensures ShowsAt(PanelSections(d), 0) <==> Present(d.base.moduleName)
    ensures ShowsAt(PanelSections(d), 1) <==> Present(d.base.description)
    ensures ShowsAt(PanelSections(d), 2) <==>
      (KindOf(d) == Data || KindOf(d) == Newtype) && NonEmpty(d.constructors)
    ensures ShowsAt(PanelSections(d), 3) <==> d.TypeRef? && NonEmpty(d.instances)
    ensures ShowsAt(PanelSections(d), 4) <==> d.TypeclassRef? && |d.methods| > 0
    ensures ShowsAt(PanelSections(d), 5) <==> d.TypeclassRef? && NonEmpty(d.laws)
    ensures ShowsAt(PanelSections(d), 6) <==> Present(d.base.example)
    ensures forall k :: k > 6 ==> !ShowsAt(PanelSections(d), k)
  {
    var cs := Candidates(d);
    forall k: nat
      ensures ShowsAt(PanelSections(d), k) <==> k < 7 && cs[k].Some?
    {
      PlaceShown(d, k);
    }
    assert cs == [ModulePlace(d), DescriptionPlace(d), ConstructorsPlace(d), InstancesPlace(d),
      MethodsPlace(d), LawsPlace(d), ExamplePlace(d)];
  }

  /** A place of the panel is shown exactly when its candidate is present. */
  lemma PlaceShown(d: HaskellDef, k: nat)
    ensures ShowsAt(PanelSections(d), k) <==> k < 7 && Candidates(d)[k].Some?
  {
    SomesShows(Candidates(d), 0, k);
  }

  /** The panel is empty exactly when no gate holds. */
  lemma PanelEmptyIffNoGate(d: HaskellDef)
    ensures PanelSections(d) == [] <==> forall k :: 0 <= k < 7 ==> Candidates(d)[k].None?
  {
    SomesEmpty(Candidates(d));
  }

  /**
    `hasDetails` against what the entry can show: it holds exactly when the
    panel has a section, the header has a badge, or a plain `type`
    declaration carries constructors (which the panel never lists).
  */
  lemma HasDetailsIffSomethingToShow(d: HaskellDef)
    ensures HasDetails(d) <==>
      || PanelSections(d) != []
      || HeaderBadges(d) != []
      || (d.TypeRef? && d.typeKind == Type && NonEmpty(d.constructors))
  {
    var cs := Candidates(d);
    PanelEmptyIffNoGate(d);
    assert PanelSections(d) == [] <==>
      cs[0].None? && cs[1].None? && cs[2].None? && cs[3].None? && cs[4].None? && cs[5].None? && cs[6].None?;
  }

  /** Since, deprecated or constructors on a plain `type` give an Expand button over an empty panel. */
  lemma ExpandOverEmptyPanel(d: HaskellDef)
    requires d.base.moduleName == None && d.base.description == None && d.base.example == None
    requires d.ValueRef? || (d.TypeRef? && d.typeKind == Type && d.instances == None)
    requires Present(d.base.since) || Present(d.base.deprecated) || (d.TypeRef? && NonEmpty(d.constructors))
    ensures HasDetails(d) && PanelSections(d) == []
  {
    assert ModulePlace(d).None? && DescriptionPlace(d).None? && ConstructorsPlace(d).None?;
    assert InstancesPlace(d).None? && MethodsPlace(d).None? && LawsPlace(d).None? && ExamplePlace(d).None?;
    PanelEmptyIffNoGate(d);
  }
}
