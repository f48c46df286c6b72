/**
  One `HaskellRef` entry of components/HaskellRef.tsx: its definition, its
  `expanded` state (initially collapsed, flipped by the button), and what it
  renders for that state.
*/
module Entries {
  import opened Options
  import opened Defs
  import opened Tokenizer
  import opened TokenizerSpec
  import opened Signatures
  import opened Details

  datatype Entry = Entry(def: HaskellDef, expanded: bool)

  /** A freshly mounted entry: `useState(false)`. */
  function NewEntry(d: HaskellDef): (e: Entry)
    ensures e.def == d && !e.expanded
  {
    Entry(d, false)
  }

  /** The button's click handler, `setExpanded(!expanded)`. */
  function Click(e: Entry): (r: Entry)
    ensures r.def == e.def && r.expanded != e.expanded
  {
    e.(expanded := !e.expanded)
  }

  /** n clicks in a row. */
  function Clicks(e: Entry, n: nat): Entry
    decreases n
  {
    if n == 0 then e else Clicks(Click(e), n - 1)
  }

  /** Two clicks put an entry back as it was. */
  lemma ClickTwice(e: Entry)
    ensures Click(Click(e)) == e
  {
  }

  /** After n clicks the definition is unchanged and the entry is flipped exactly when n is odd. */
  lemma {:induction false} ClicksParity(e: Entry, n: nat)
    ensures Clicks(e, n).def == e.def
    ensures Clicks(e, n).expanded <==> (e.expanded != (n % 2 == 1))
    decreases n
  {
    if n > 0 {
      ClicksParity(Click(e), n - 1);
    }
  }

  /** The expand button: its caption and whether its arrow is turned over. */
  datatype Button = Button(caption: string, arrowRotated: bool)

  /**
    What an entry renders: the kind badge, the highlighted signature, the
    header badges, the button when there are details, and the panel when
    expanded and there are details.
  */
  datatype View = View(
    kind: Kind,
    header: seq<Span>,
    badges: seq<HeaderBadge>,
    button: Option<Button>,
    panel: Option<seq<Section>>)

  /** The header's signature, through the highlighter. */
  function Header(d: HaskellDef): (h: seq<Span>)
    ensures Texts(h) == Signature(d)
    ensures Signature(d) != "" ==> Tokenizes(Signature(d), h)
  {
    HighlightTokenizesAny(Signature(d));
    Highlight(Signature(d))
  }

  function Render(e: Entry): (v: View)
    ensures v.kind == KindOf(e.def)
    ensures Texts(v.header) == Signature(e.def)
    ensures Signature(e.def) != "" ==> Tokenizes(Signature(e.def), v.header)
    ensures v.button.Some? <==> HasDetails(e.def)
    ensures v.button.Some? ==>
      && (v.button.value.caption == "Collapse" <==> e.expanded)
      && (v.button.value.caption == "Expand" <==> !e.expanded)
      && (v.button.value.arrowRotated <==> e.expanded)
    ensures v.panel.Some? <==> e.expanded && HasDetails(e.def)
    ensures v.panel.Some? ==> v.panel.value == PanelSections(e.def)
  {
    var d := e.def;
    var showDetails := HasDetails(d);
    View(
      KindOf(d),
      Header(d),
      HeaderBadges(d),
      if showDetails then Some(Button(if e.expanded then "Collapse" else "Expand", e.expanded)) else None,
      if e.expanded && showDetails then Some(PanelSections(d)) else None)
  }

  /** The header row does not depend on whether the entry is expanded. */
  lemma HeaderIgnoresExpanded(e: Entry, b: bool)
    ensures var v, w := Render(e), Render(e.(expanded := b));
      v.kind == w.kind && v.header == w.header && v.badges == w.badges && (v.button.Some? <==> w.button.Some?)
  {
  }

  /**
    From a fresh entry with details, n clicks show the panel exactly when n
    is odd; an entry without details shows neither button nor panel,
    whatever its state.
  */
  lemma PanelAfterClicks(d: HaskellDef, n: nat)
    ensures HasDetails(d) ==>
      Render(Clicks(NewEntry(d), n)).panel == if n % 2 == 1 then Some(PanelSections(d)) else None
    ensures !HasDetails(d) ==>
      Render(Clicks(NewEntry(d), n)).panel == None && Render(Clicks(NewEntry(d), n)).button == None
  {
    ClicksParity(NewEntry(d), n);
  }

  /** The entries of a list, each rendering its own definition with its own state. */
  function Entries(ds: seq<HaskellDef>): (es: seq<Entry>)
    ensures |es| == |ds|
    ensures forall i :: 0 <= i < |ds| ==> es[i] == NewEntry(ds[i])
  {
    seq(|ds|, i requires 0 <= i < |ds| => NewEntry(ds[i]))
  }

  /** A click on the button of entry i of a list. */
  function ClickAt(es: seq<Entry>, i: nat): (r: seq<Entry>)
    requires i < |es|
    ensures |r| == |es|
    ensures r[i] == Click(es[i])
    ensures forall j :: 0 <= j < |es| && j != i ==> r[j] == es[j]
  {
    es[i := Click(es[i])]
  }

  /**
    The entries' states are independent: clicks on two different entries
    commute, and both entries can be expanded at once.
  */
  lemma ClicksAreIndependent(es: seq<Entry>, i: nat, j: nat)
    requires i < |es| && j < |es| && i != j
    ensures ClickAt(ClickAt(es, i), j) == ClickAt(ClickAt(es, j), i)
    ensures !es[i].expanded && !es[j].expanded ==>
      ClickAt(ClickAt(es, i), j)[i].expanded && ClickAt(ClickAt(es, i), j)[j].expanded
  {
  }
}
