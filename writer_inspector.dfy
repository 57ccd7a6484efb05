/**
  The layered property resolution of Writer's sidebar inspector
  (`UpdateTree` and `AttrChangedNotify`). For the text position at the cursor it
  shows, in three top-level nodes, the properties set by direct formatting,
  by the applied character style and by each paragraph style from the applied
  one up to the root of its hierarchy. A property name is defined by the first
  layer, in that priority order, that shows it; every later line for the same
  name carries a grey marker.

  The host's UNO queries are replaced by snapshots: the cursor's property list
  with the names of its two styles, and the character and paragraph style
  families as maps from style name to style.
 */
module WriterInspector {
  import opened PropertyFormatter

  /** `css::beans::PropertyState`. */
  datatype PropertyState = DirectValue | DefaultValue | AmbiguousValue

  /** One entry of a property set: its name, its state and its value. */
  datatype Property = Property(name: string, state: PropertyState, value: Value)

  /** A style as seen through its property set; `parentName` is empty for the root. */
  datatype Style = Style(displayName: string, parentName: string, properties: seq<Property>)

  /** The text range at the cursor: its property set and the names of its styles. */
  datatype Cursor = Cursor(properties: seq<Property>, charStyleName: string, paraStyleName: string)

  /** `svx::sidebar::TreeNode`. */
  datatype TreeNode = TreeNode(nodeName: string, children: seq<TreeNode>)

  const ParagraphStylesLabel: string := "Paragraph Styles"
  const CharacterStylesLabel: string := "Character Styles"
  const DirectFormattingLabel: string := "Direct Formatting"

  /** The markers appended to a line whose name an earlier layer already defined. */
  const CharGreyMarker: string := "  !!<GREY>!!"
  const ParaGreyMarker: string := "    !!<GREY>!! "

  /** The layer a property list is read from. */
  datatype Layer = DirectFormatting | CharacterStyle | ParagraphStyle(isRoot: bool)

  /** Which properties a layer looks at: only directly set ones, except at the root paragraph style. */
  predicate Considered(layer: Layer, state: PropertyState) {
    (layer.ParagraphStyle? && layer.isRoot) || state == DirectValue
  }

  function Marker(layer: Layer): string {
    match layer
    case DirectFormatting => ""
    case CharacterStyle => CharGreyMarker
    case ParagraphStyle(_) => ParaGreyMarker
  }

  /** One displayed line before it is rendered: the property, its formatted text and whether it is greyed. */
  datatype Row = Row(name: string, text: string, greyed: bool)

  /** The rows a layer shows and the property names defined after it. */
  datatype Resolved = Resolved(rows: seq<Row>, defined: set<string>)

  /**
    One property read by a layer, with `prev.defined` playing the part of the
    panel's `aIsDefined` map: a considered property the formatter accepts
    yields a row; outside direct formatting the row is greyed when its name is
    already defined, and otherwise its name becomes defined.
   */
  function ResolveStep(layer: Layer, prev: Resolved, p: Property, lang: LanguageOptions): Resolved {
    if !Considered(layer, p.state) then prev
    else match GetPropertyValues(p.name, p.value, lang)
      case None => prev
      case Some(text) =>
        if layer != DirectFormatting && p.name in prev.defined then
          Resolved(prev.rows + [Row(p.name, text, true)], prev.defined)
        else
          Resolved(prev.rows + [Row(p.name, text, false)], prev.defined + {p.name})
  }

  /** The rows of one layer, its properties read in order starting from the names in `defined`. */
  function ResolveLayer(layer: Layer, properties: seq<Property>, defined: set<string>, lang: LanguageOptions): Resolved
    decreases |properties|
  {
    if properties == [] then Resolved([], defined)
    else ResolveStep(layer, ResolveLayer(layer, properties[..|properties| - 1], defined, lang), properties[|properties| - 1], lang)
  }

  function RowNode(layer: Layer, row: Row): TreeNode {
    TreeNode(if row.greyed then row.text + Marker(layer) else row.text, [])
  }

  /** The leaf nodes displaying `rows`, in order. */
  function Leaves(layer: Layer, rows: seq<Row>): (nodes: seq<TreeNode>)
    ensures |nodes| == |rows|
    ensures forall k :: 0 <= k < |rows| ==> nodes[k] == RowNode(layer, rows[k])
  {
    if rows == [] then [] else Leaves(layer, rows[..|rows| - 1]) + [RowNode(layer, rows[|rows| - 1])]
  }

  lemma LeavesAppend(layer: Layer, rows: seq<Row>, row: Row)
    ensures Leaves(layer, rows + [row]) == Leaves(layer, rows) + [RowNode(layer, row)]
  {
    assert (rows + [row])[..|rows|] == rows;
  }

  /** The child nodes of a top-level node and the names defined after them. */
  datatype Level = Level(nodes: seq<TreeNode>, defined: set<string>)

  /** The Character Styles children: none without a character style, else one node for it. */
  function CharacterLevel(cursor: Cursor, charStyles: map<string, Style>, defined: set<string>, lang: LanguageOptions): Level
    requires cursor.charStyleName == "" || cursor.charStyleName in charStyles
  {
    if cursor.charStyleName == "" then Level([], defined)
    else
      var style := charStyles[cursor.charStyleName];
      var r := ResolveLayer(CharacterStyle, style.properties, defined, lang);
      Level([TreeNode(style.displayName, Leaves(CharacterStyle, r.rows))], r.defined)
  }

  /**
    `chain` lists the paragraph styles met by following parent names from
    `start` until an empty one: it is empty when `start` is, every name in it
    is a non-empty style of the family, each style's parent is the next name,
    and the last one is a root. The chain exists exactly when the walk ends.
   */
  predicate IsParaChain(paraStyles: map<string, Style>, start: string, chain: seq<string>) {
    (chain == [] <==> start == "") &&
    (forall i :: 0 <= i < |chain| ==> chain[i] != "" && chain[i] in paraStyles) &&
    (chain != [] ==> chain[0] == start && paraStyles[chain[|chain| - 1]].parentName == "") &&
    (forall i :: 0 <= i < |chain| - 1 ==> paraStyles[chain[i]].parentName == chain[i + 1])
  }

  /** The layer of a paragraph style: its root flag is its parent name being empty. */
  function ParaLayer(style: Style): Layer {
    ParagraphStyle(style.parentName == "")
  }

  /** The node of one paragraph style, read after the names in `before` are defined. */
  function StyleNode(style: Style, before: set<string>, lang: LanguageOptions): TreeNode {
    TreeNode(style.displayName, Leaves(ParaLayer(style), ResolveLayer(ParaLayer(style), style.properties, before, lang).rows))
  }

  /** The Paragraph Styles children in walk order (applied style first) and the names defined after them. */
  function ParagraphLevel(paraStyles: map<string, Style>, chain: seq<string>, defined: set<string>, lang: LanguageOptions): Level
    requires forall i :: 0 <= i < |chain| ==> chain[i] in paraStyles
    decreases |chain|
  {
    if chain == [] then Level([], defined)
    else
      var prev := ParagraphLevel(paraStyles, chain[..|chain| - 1], defined, lang);
      var style := paraStyles[chain[|chain| - 1]];
      Level(prev.nodes + [StyleNode(style, prev.defined, lang)],
            ResolveLayer(ParaLayer(style), style.properties, prev.defined, lang).defined)
  }

  function Reversed<T>(s: seq<T>): (r: seq<T>)
    ensures |r| == |s|
    ensures forall k :: 0 <= k < |s| ==> r[k] == s[|s| - 1 - k]
  {
    if s == [] then [] else [s[|s| - 1]] + Reversed(s[..|s| - 1])
  }

  /** What the panel needs from the snapshots: the named styles exist and the parent walk ends. */
  predicate StylesAvailable(cursor: Cursor, charStyles: map<string, Style>, paraStyles: map<string, Style>, chain: seq<string>) {
    (cursor.charStyleName == "" || cursor.charStyleName in charStyles) &&
    IsParaChain(paraStyles, cursor.paraStyleName, chain)
  }

  /** The three top-level nodes, as the layers resolve in priority order. */
  function InspectorTree(cursor: Cursor, charStyles: map<string, Style>, paraStyles: map<string, Style>,
                         chain: seq<string>, lang: LanguageOptions): (tree: seq<TreeNode>)
    requires StylesAvailable(cursor, charStyles, paraStyles, chain)
    ensures |tree| == 3
    ensures tree[0].nodeName == ParagraphStylesLabel && |tree[0].children| == |chain|
    ensures tree[1].nodeName == CharacterStylesLabel && |tree[1].children| == (if cursor.charStyleName == "" then 0 else 1)
    ensures tree[2].nodeName == DirectFormattingLabel
  {
    var direct := ResolveLayer(DirectFormatting, cursor.properties, {}, lang);
    var character := CharacterLevel(cursor, charStyles, direct.defined, lang);
    var paragraph := ParagraphLevel(paraStyles, chain, character.defined, lang);
    ParagraphLevelLength(paraStyles, chain, character.defined, lang);
    [TreeNode(ParagraphStylesLabel, Reversed(paragraph.nodes)),
     TreeNode(CharacterStylesLabel, character.nodes),
     TreeNode(DirectFormattingLabel, Leaves(DirectFormatting, direct.rows))]
  }

  lemma {:induction false} ParagraphLevelLength(paraStyles: map<string, Style>, chain: seq<string>, defined: set<string>, lang: LanguageOptions)
    requires forall i :: 0 <= i < |chain| ==> chain[i] in paraStyles
    ensures |ParagraphLevel(paraStyles, chain, defined, lang).nodes| == |chain|
    decreases |chain|
  {
    if chain != [] {
      ParagraphLevelLength(paraStyles, chain[..|chain| - 1], defined, lang);
    }
  }

  /** The names `aIsDefined` maps to true; an absent key reads as false. */
  function DefinedNames(isDefined: map<string, bool>): set<string> {
    set name | name in isDefined && isDefined[name]
  }

  lemma DefinedNamesAdd(isDefined: map<string, bool>, name: string)
    ensures DefinedNames(isDefined[name := true]) == DefinedNames(isDefined) + {name}
  {
  }

  /**
    One of the panel's three loops over a property list: considered
    properties the formatter accepts are appended as lines, greyed (outside
    direct formatting) when `isDefined` already holds their name, and
    otherwise their name is entered in `isDefined`.
   */
  method AddLayerEntries(layer: Layer, properties: seq<Property>, lang: LanguageOptions, isDefined: map<string, bool>)
    returns (entries: seq<TreeNode>, isDefined': map<string, bool>)
    ensures var r := ResolveLayer(layer, properties, DefinedNames(isDefined), lang);
      entries == Leaves(layer, r.rows) && DefinedNames(isDefined') == r.defined
  {
    ghost var defined0 := DefinedNames(isDefined);
    entries, isDefined' := [], isDefined;
    var i := 0;
    while i < |properties|
      invariant 0 <= i <= |properties|
      invariant entries == Leaves(layer, ResolveLayer(layer, properties[..i], defined0, lang).rows)
      invariant DefinedNames(isDefined') == ResolveLayer(layer, properties[..i], defined0, lang).defined
    {
      var p := properties[i];
      assert properties[..i + 1][..i] == properties[..i];
      ghost var prev := ResolveLayer(layer, properties[..i], defined0, lang);
      assert ResolveLayer(layer, properties[..i + 1], defined0, lang) == ResolveStep(layer, prev, p, lang);
      if Considered(layer, p.state) {
        var formatted := GetPropertyValues(p.name, p.value, lang);
        if formatted.Some? {
          var line := formatted.value;
          assert (p.name in isDefined' && isDefined'[p.name]) == (p.name in prev.defined);
          if layer != DirectFormatting && p.name in isDefined' && isDefined'[p.name] {
            line := line + Marker(layer);
            assert ResolveStep(layer, prev, p, lang).rows == prev.rows + [Row(p.name, formatted.value, true)];
            LeavesAppend(layer, prev.rows, Row(p.name, formatted.value, true));
          } else {
            assert ResolveStep(layer, prev, p, lang) ==
              Resolved(prev.rows + [Row(p.name, formatted.value, false)], prev.defined + {p.name});
            LeavesAppend(layer, prev.rows, Row(p.name, formatted.value, false));
            DefinedNamesAdd(isDefined', p.name);
            isDefined' := isDefined'[p.name := true];
          }
          entries := entries + [TreeNode(line, [])];
        }
      }
      i := i + 1;
    }
    assert properties[..|properties|] == properties;
  }

  /**
    The walk of `UpdateTree` over the paragraph style hierarchy: from the
    style named `start`, each style's node is appended, the root's showing
    every property and the others only their directly set ones, and the walk
    moves on to the parent until the parent name is empty. Nodes come out in
    walk order, the applied style first.
   */
  method AddParagraphStyles(paraStyles: map<string, Style>, start: string, ghost chain: seq<string>,
                            lang: LanguageOptions, isDefined: map<string, bool>)
    returns (children: seq<TreeNode>, isDefined': map<string, bool>)
    requires IsParaChain(paraStyles, start, chain)
    ensures var level := ParagraphLevel(paraStyles, chain, DefinedNames(isDefined), lang);
      children == level.nodes && DefinedNames(isDefined') == level.defined
  {
    ghost var defined0 := DefinedNames(isDefined);
    children, isDefined' := [], isDefined;
    var current := start;
    ghost var i := 0;
    while current != ""
      invariant 0 <= i <= |chain|
      invariant current == if i < |chain| then chain[i] else ""
      invariant children == ParagraphLevel(paraStyles, chain[..i], defined0, lang).nodes
      invariant DefinedNames(isDefined') == ParagraphLevel(paraStyles, chain[..i], defined0, lang).defined
      decreases |chain| - i
    {
      assert chain[..i + 1][..i] == chain[..i];
      var style := paraStyles[current];
      var parent := style.parentName;
      var entries;
      entries, isDefined' := AddLayerEntries(ParagraphStyle(parent == ""), style.properties, lang, isDefined');
      children := children + [TreeNode(style.displayName, entries)];
      current := parent;
      i := i + 1;
    }
    assert chain[..i] == chain;
  }

  /**
    `UpdateTree`: resolves the three layers and appends the Paragraph Styles,
    Character Styles and Direct Formatting nodes to `store`. The ghost `chain`
    is the walk from the cursor's paragraph style to the root; it only
    bounds the loop and is determined by the snapshots (see `ParaChainUnique`).
   */
  method UpdateTree(cursor: Cursor, charStyles: map<string, Style>, paraStyles: map<string, Style>,
                    ghost chain: seq<string>, lang: LanguageOptions, store: seq<TreeNode>)
    returns (store': seq<TreeNode>)
    requires StylesAvailable(cursor, charStyles, paraStyles, chain)
    ensures store' == store + InspectorTree(cursor, charStyles, paraStyles, chain, lang)
  {
    var isDefined: map<string, bool> := map[];
    assert DefinedNames(isDefined) == {};
    var dfChildren;
    dfChildren, isDefined := AddLayerEntries(DirectFormatting, cursor.properties, lang, isDefined);
    ghost var direct := ResolveLayer(DirectFormatting, cursor.properties, {}, lang);
    assert dfChildren == Leaves(DirectFormatting, direct.rows);

    var charChildren: seq<TreeNode> := [];
    if cursor.charStyleName != "" {
      var style := charStyles[cursor.charStyleName];
      var entries;
      entries, isDefined := AddLayerEntries(CharacterStyle, style.properties, lang, isDefined);
      charChildren := charChildren + [TreeNode(style.displayName, entries)];
    }

    ghost var character := CharacterLevel(cursor, charStyles, direct.defined, lang);
    assert charChildren == character.nodes;
    assert DefinedNames(isDefined) == character.defined;
    var paraChildren;
    paraChildren, isDefined := AddParagraphStyles(paraStyles, cursor.paraStyleName, chain, lang, isDefined);
    paraChildren := Reversed(paraChildren);
    assert InspectorTree(cursor, charStyles, paraStyles, chain, lang) ==
      [TreeNode(ParagraphStylesLabel, paraChildren), TreeNode(CharacterStylesLabel, charChildren),
       TreeNode(DirectFormattingLabel, dfChildren)];

    store' := store + [TreeNode(ParagraphStylesLabel, paraChildren)];
    store' := store' + [TreeNode(CharacterStylesLabel, charChildren)];
    store' := store' + [TreeNode(DirectFormattingLabel, dfChildren)];
  }

  /**
    `AttrChangedNotify`: the nodes handed to the tree widget. They are those of
    `UpdateTree` when there is a current document whose cursor is on a text
    node, and none otherwise.
   */
  method AttrChangedNotify(hasDocShell: bool, cursorOnTextNode: bool, cursor: Cursor,
                           charStyles: map<string, Style>, paraStyles: map<string, Style>,
                           ghost chain: seq<string>, lang: LanguageOptions)
    returns (store: seq<TreeNode>)
    requires hasDocShell && cursorOnTextNode ==> StylesAvailable(cursor, charStyles, paraStyles, chain)
    ensures !(hasDocShell && cursorOnTextNode) ==> store == []
    ensures hasDocShell && cursorOnTextNode ==> store == InspectorTree(cursor, charStyles, paraStyles, chain, lang)
  {
    store := [];
    if hasDocShell && cursorOnTextNode {
      store := UpdateTree(cursor, charStyles, paraStyles, chain, lang, store);
    }
  }
}
