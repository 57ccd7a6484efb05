/**
  What the inspector tree promises, proved of the resolution functions that
  `UpdateTree` is verified against: which properties appear in which node and
  in what order, which lines carry the grey marker, how the paragraph style
  chain is laid out, and that each property name is shown unmarked at most
  once in the whole tree.
 */
module WriterInspectorProofs {
  import opened PropertyFormatter
  import opened WriterInspector

  /** A layer shows `p`: it considers `p`'s state and the formatter accepts it. */
  predicate Shows(layer: Layer, p: Property, lang: LanguageOptions) {
    Considered(layer, p.state) && GetPropertyValues(p.name, p.value, lang).Some?
  }

  /** The properties a layer shows, in input order. */
  function Accepted(layer: Layer, properties: seq<Property>, lang: LanguageOptions): (r: seq<Property>)
    ensures |r| <= |properties|
    ensures forall k :: 0 <= k < |r| ==> Shows(layer, r[k], lang)
    decreases |properties|
  {
    if properties == [] then []
    else
      var prev := Accepted(layer, properties[..|properties| - 1], lang);
      var p := properties[|properties| - 1];
      if Shows(layer, p, lang) then prev + [p] else prev
  }

  /** A layer shows exactly those of its properties it considers and the formatter accepts. */
  lemma {:induction false} AcceptedMembers(layer: Layer, properties: seq<Property>, lang: LanguageOptions, p: Property)
    ensures p in Accepted(layer, properties, lang) <==> p in properties && Shows(layer, p, lang)
    decreases |properties|
  {
    if properties != [] {
      var init := properties[..|properties| - 1];
      assert properties == init + [properties[|properties| - 1]];
      AcceptedMembers(layer, init, lang, p);
    }
  }

  /**
    The root paragraph style shows every property the formatter accepts,
    whatever its state; every other style, like the character style and
    direct formatting, only the directly set ones.
   */
  lemma {:induction false} ParagraphStyleFilter(properties: seq<Property>, lang: LanguageOptions, p: Property)
    requires p in properties
    ensures p in Accepted(ParagraphStyle(true), properties, lang) <==> GetPropertyValues(p.name, p.value, lang).Some?
    ensures p in Accepted(ParagraphStyle(false), properties, lang) <==>
              p.state == DirectValue && GetPropertyValues(p.name, p.value, lang).Some?
  {
    AcceptedMembers(ParagraphStyle(true), properties, lang, p);
    AcceptedMembers(ParagraphStyle(false), properties, lang, p);
  }

  /** The formatted line of a property the formatter accepts. */
  function DisplayText(p: Property, lang: LanguageOptions): string
    requires GetPropertyValues(p.name, p.value, lang).Some?
  {
    GetPropertyValues(p.name, p.value, lang).value
  }

  function NameSet(properties: seq<Property>): set<string> {
    set i | 0 <= i < |properties| :: properties[i].name
  }

  lemma NameSetAppend(properties: seq<Property>, p: Property)
    ensures NameSet(properties + [p]) == NameSet(properties) + {p.name}
  {
    var s := properties + [p];
    assert s[|properties|].name == p.name;
    forall n | n in NameSet(properties) ensures n in NameSet(s) {
      var i :| 0 <= i < |properties| && properties[i].name == n;
      assert s[i] == properties[i];
    }
  }

  /** One step of a layer on a property it shows. */
  lemma StepShown(layer: Layer, prev: Resolved, p: Property, lang: LanguageOptions)
    requires Shows(layer, p, lang)
    ensures ResolveStep(layer, prev, p, lang) ==
      if layer != DirectFormatting && p.name in prev.defined
      then Resolved(prev.rows + [Row(p.name, DisplayText(p, lang), true)], prev.defined)
      else Resolved(prev.rows + [Row(p.name, DisplayText(p, lang), false)], prev.defined + {p.name})
  {
  }

  /** One step of a layer on a property it does not show. */
  lemma StepHidden(layer: Layer, prev: Resolved, p: Property, lang: LanguageOptions)
    requires !Shows(layer, p, lang)
    ensures ResolveStep(layer, prev, p, lang) == prev
  {
  }

  /** A layer shows one row per shown property and then defines exactly their names in addition. */
  lemma {:induction false} LayerDefines(layer: Layer, properties: seq<Property>, defined: set<string>, lang: LanguageOptions)
    ensures var r := ResolveLayer(layer, properties, defined, lang);
      var shown := Accepted(layer, properties, lang);
      |r.rows| == |shown| && r.defined == defined + NameSet(shown)
    decreases |properties|
  {
    if properties != [] {
      var init := properties[..|properties| - 1];
      var p := properties[|properties| - 1];
      LayerDefines(layer, init, defined, lang);
      var prev := ResolveLayer(layer, init, defined, lang);
      assert ResolveLayer(layer, properties, defined, lang) == ResolveStep(layer, prev, p, lang);
      if Shows(layer, p, lang) {
        StepShown(layer, prev, p, lang);
        NameSetAppend(Accepted(layer, init, lang), p);
      } else {
        StepHidden(layer, prev, p, lang);
      }
    }
  }

  /**
    Each row of a layer belongs to the next property the layer shows, in
    order, with that property's formatted text; outside direct formatting it
    is greyed exactly when its name was defined before the layer or by an
    earlier row of the same layer. Afterwards the names of all shown
    properties are defined, and no other new name.
   */
  lemma {:induction false} LayerRows(layer: Layer, properties: seq<Property>, defined: set<string>, lang: LanguageOptions)
    ensures var r := ResolveLayer(layer, properties, defined, lang);
      var shown := Accepted(layer, properties, lang);
      |r.rows| == |shown| && r.defined == defined + NameSet(shown) &&
      forall k :: 0 <= k < |shown| ==>
        r.rows[k] == Row(shown[k].name, DisplayText(shown[k], lang),
                         layer != DirectFormatting && (shown[k].name in defined || shown[k].name in NameSet(shown[..k])))
    decreases |properties|
  {
    if properties != [] {
      var init := properties[..|properties| - 1];
      var p := properties[|properties| - 1];
      var prev := ResolveLayer(layer, init, defined, lang);
      var prevShown := Accepted(layer, init, lang);
      LayerDefines(layer, properties, defined, lang);
      LayerRows(layer, init, defined, lang);
      var r := ResolveLayer(layer, properties, defined, lang);
      assert r == ResolveStep(layer, prev, p, lang);
      if Shows(layer, p, lang) {
        StepShown(layer, prev, p, lang);
        var shown := prevShown + [p];
        assert Accepted(layer, properties, lang) == shown;
        forall k | 0 <= k < |shown|
          ensures r.rows[k] == Row(shown[k].name, DisplayText(shown[k], lang),
                                   layer != DirectFormatting && (shown[k].name in defined || shown[k].name in NameSet(shown[..k])))
        {
          if k < |prevShown| {
            assert r.rows[k] == prev.rows[k];
            assert shown[..k] == prevShown[..k] && shown[k] == prevShown[k];
          } else {
            assert shown[..k] == prevShown;
          }
        }
      } else {
        StepHidden(layer, prev, p, lang);
        assert Accepted(layer, properties, lang) == prevShown;
      }
    }
  }

  /** A name no shown property carries is neither displayed nor defined by the layer. */
  lemma {:induction false} RejectedNamesStayUndefined(layer: Layer, properties: seq<Property>, defined: set<string>,
                                                    lang: LanguageOptions, name: string)
    requires forall p :: p in properties && p.name == name ==> !Shows(layer, p, lang)
    ensures var r := ResolveLayer(layer, properties, defined, lang);
      (name in r.defined <==> name in defined) &&
      forall k :: 0 <= k < |r.rows| ==> r.rows[k].name != name
  {
    LayerRows(layer, properties, defined, lang);
    var shown := Accepted(layer, properties, lang);
    forall k | 0 <= k < |shown| ensures shown[k].name != name {
      AcceptedMembers(layer, properties, lang, shown[k]);
    }
  }

  /** The Direct Formatting node lists every shown cursor property, in order, unmarked. */
  lemma DirectFormattingNode(cursor: Cursor, charStyles: map<string, Style>, paraStyles: map<string, Style>,
                             chain: seq<string>, lang: LanguageOptions)
    requires StylesAvailable(cursor, charStyles, paraStyles, chain)
    ensures var node := InspectorTree(cursor, charStyles, paraStyles, chain, lang)[2];
      var shown := Accepted(DirectFormatting, cursor.properties, lang);
      node.nodeName == DirectFormattingLabel && |node.children| == |shown| &&
      forall k :: 0 <= k < |shown| ==> node.children[k] == TreeNode(DisplayText(shown[k], lang), [])
  {
    LayerRows(DirectFormatting, cursor.properties, {}, lang);
  }

  /** The names defined once direct formatting has been read. */
  function DirectNames(cursor: Cursor, lang: LanguageOptions): set<string> {
    NameSet(Accepted(DirectFormatting, cursor.properties, lang))
  }

  /** The names the character style adds. */
  function CharacterNames(cursor: Cursor, charStyles: map<string, Style>, lang: LanguageOptions): set<string>
    requires cursor.charStyleName == "" || cursor.charStyleName in charStyles
  {
    if cursor.charStyleName == "" then {}
    else NameSet(Accepted(CharacterStyle, charStyles[cursor.charStyleName].properties, lang))
  }

  /**
    The Character Styles node is empty without a character style; with one it
    has a single child labelled with the style's display name, listing the
    style's shown properties in order, each greyed exactly when direct
    formatting or an earlier line of the style already showed its name.
   */
  lemma CharacterStylesNode(cursor: Cursor, charStyles: map<string, Style>, paraStyles: map<string, Style>,
                            chain: seq<string>, lang: LanguageOptions)
    requires StylesAvailable(cursor, charStyles, paraStyles, chain)
    ensures var node := InspectorTree(cursor, charStyles, paraStyles, chain, lang)[1];
      node.nodeName == CharacterStylesLabel &&
      (cursor.charStyleName == "" ==> node.children == []) &&
      (cursor.charStyleName != "" ==>
        var style := charStyles[cursor.charStyleName];
        var shown := Accepted(CharacterStyle, style.properties, lang);
        var before := DirectNames(cursor, lang);
        |node.children| == 1 && node.children[0].nodeName == style.displayName &&
        |node.children[0].children| == |shown| &&
        forall k :: 0 <= k < |shown| ==>
          node.children[0].children[k] ==
            TreeNode(if shown[k].name in before || shown[k].name in NameSet(shown[..k])
                     then DisplayText(shown[k], lang) + CharGreyMarker
                     else DisplayText(shown[k], lang), []))
  {
    LayerDefines(DirectFormatting, cursor.properties, {}, lang);
    var direct := ResolveLayer(DirectFormatting, cursor.properties, {}, lang);
    assert direct.defined == DirectNames(cursor, lang);
    if cursor.charStyleName != "" {
      var style := charStyles[cursor.charStyleName];
      LayerRows(CharacterStyle, style.properties, direct.defined, lang);
      var r := ResolveLayer(CharacterStyle, style.properties, direct.defined, lang);
      assert InspectorTree(cursor, charStyles, paraStyles, chain, lang)[1].children
        == [TreeNode(style.displayName, Leaves(CharacterStyle, r.rows))];
    }
  }

  /** The root of a walk is its last style and no other: only it has an empty parent name. */
  lemma ChainRoot(paraStyles: map<string, Style>, start: string, chain: seq<string>, i: nat)
    requires IsParaChain(paraStyles, start, chain) && i < |chain|
    ensures paraStyles[chain[i]].parentName == "" <==> i == |chain| - 1
  {
    if i < |chain| - 1 {
      assert chain[i + 1] != "";
    }
  }

  /** The walk from a style name is determined by the style family: the ghost chain is no extra input. */
  lemma {:induction false} ParaChainUnique(paraStyles: map<string, Style>, start: string, c1: seq<string>, c2: seq<string>)
    requires IsParaChain(paraStyles, start, c1) && IsParaChain(paraStyles, start, c2)
    ensures c1 == c2
  {
    var n := if |c1| < |c2| then |c1| else |c2|;
    var i := 0;
    while i < n
      invariant 0 <= i <= n
      invariant forall t :: 0 <= t < i ==> c1[t] == c2[t]
    {
      if i > 0 {
        assert c1[i] == paraStyles[c1[i - 1]].parentName == paraStyles[c2[i - 1]].parentName == c2[i];
      }
      i := i + 1;
    }
    if |c1| < |c2| {
      ChainRoot(paraStyles, start, c2, |c1| - 1);
      assert false;
    } else if |c2| < |c1| {
      ChainRoot(paraStyles, start, c1, |c2| - 1);
      assert false;
    }
  }

  /** A walk that ends never meets a style twice: the parent links it follows are acyclic. */
  lemma {:induction false} ParaChainAcyclic(paraStyles: map<string, Style>, start: string, chain: seq<string>)
    requires IsParaChain(paraStyles, start, chain)
    ensures forall i, j :: 0 <= i < j < |chain| ==> chain[i] != chain[j]
  {
    forall i, j | 0 <= i < j < |chain| ensures chain[i] != chain[j] {
      if chain[i] == chain[j] {
        var d := j - i;
        var t := i;
        while t + d < |chain| - 1
          invariant i <= t && t + d <= |chain| - 1
          invariant chain[t] == chain[t + d]
        {
          t := t + 1;
        }
        ChainRoot(paraStyles, start, chain, t);
        assert false;
      }
    }
  }

  /** The names the styles of `chain` add, in walk order. */
  function ChainNames(paraStyles: map<string, Style>, chain: seq<string>, lang: LanguageOptions): set<string>
    requires forall i :: 0 <= i < |chain| ==> chain[i] in paraStyles
    decreases |chain|
  {
    if chain == [] then {}
    else
      var style := paraStyles[chain[|chain| - 1]];
      ChainNames(paraStyles, chain[..|chain| - 1], lang) + NameSet(Accepted(ParaLayer(style), style.properties, lang))
  }

  /** After the walk, the names of every style walked are defined in addition. */
  lemma {:induction false} ParagraphLevelDefines(paraStyles: map<string, Style>, chain: seq<string>,
                                                 defined: set<string>, lang: LanguageOptions)
    requires forall i :: 0 <= i < |chain| ==> chain[i] in paraStyles
    ensures ParagraphLevel(paraStyles, chain, defined, lang).defined == defined + ChainNames(paraStyles, chain, lang)
    decreases |chain|
  {
    if chain != [] {
      var init := chain[..|chain| - 1];
      ParagraphLevelDefines(paraStyles, init, defined, lang);
      var style := paraStyles[chain[|chain| - 1]];
      LayerDefines(ParaLayer(style), style.properties, ParagraphLevel(paraStyles, init, defined, lang).defined, lang);
    }
  }

  /** Walking the chain, each style is read after the names of all styles walked before it. */
  lemma {:induction false} ParagraphLevelNode(paraStyles: map<string, Style>, chain: seq<string>,
                                              defined: set<string>, lang: LanguageOptions, i: nat)
    requires forall i :: 0 <= i < |chain| ==> chain[i] in paraStyles
    requires i < |chain|
    ensures var level := ParagraphLevel(paraStyles, chain, defined, lang);
      |level.nodes| == |chain| &&
      level.nodes[i] == StyleNode(paraStyles[chain[i]], defined + ChainNames(paraStyles, chain[..i], lang), lang)
    decreases |chain|
  {
    var init := chain[..|chain| - 1];
    ParagraphLevelLength(paraStyles, chain, defined, lang);
    ParagraphLevelLength(paraStyles, init, defined, lang);
    if i < |init| {
      ParagraphLevelNode(paraStyles, init, defined, lang, i);
      assert chain[..i] == init[..i] && chain[i] == init[i];
    } else {
      ParagraphLevelDefines(paraStyles, init, defined, lang);
      assert chain[..i] == init;
    }
  }

  /**
    The Paragraph Styles node has one child per style of the walk, root
    first and the applied style last. The child of each style lists the
    properties it shows in order (every property the formatter accepts at the
    root, only directly set ones elsewhere), each greyed exactly when direct
    formatting, the character style, a more specific paragraph style or an
    earlier line of the same style already showed its name.
   */
  lemma ParagraphStyleChild(cursor: Cursor, charStyles: map<string, Style>, paraStyles: map<string, Style>,
                            chain: seq<string>, lang: LanguageOptions, j: nat)
    requires StylesAvailable(cursor, charStyles, paraStyles, chain) && j < |chain|
    ensures var node := InspectorTree(cursor, charStyles, paraStyles, chain, lang)[0];
      var i := |chain| - 1 - j;
      var style := paraStyles[chain[i]];
      var shown := Accepted(ParagraphStyle(i == |chain| - 1), style.properties, lang);
      var before := DirectNames(cursor, lang) + CharacterNames(cursor, charStyles, lang)
                    + ChainNames(paraStyles, chain[..i], lang);
      node.nodeName == ParagraphStylesLabel && |node.children| == |chain| &&
      node.children[j].nodeName == style.displayName &&
      |node.children[j].children| == |shown| &&
      forall k :: 0 <= k < |shown| ==>
        node.children[j].children[k] ==
          TreeNode(if shown[k].name in before || shown[k].name in NameSet(shown[..k])
                   then DisplayText(shown[k], lang) + ParaGreyMarker
                   else DisplayText(shown[k], lang), [])
  {
    var i := |chain| - 1 - j;
    var style := paraStyles[chain[i]];
    var before := CharacterNamesBefore(cursor, charStyles, lang);
    var names := before + ChainNames(paraStyles, chain[..i], lang);
    var node := InspectorTree(cursor, charStyles, paraStyles, chain, lang)[0];
    assert node.children[j] == StyleNode(style, names, lang) by {
      ParagraphNodeChildren(cursor, charStyles, paraStyles, chain, lang);
      ParagraphLevelNode(paraStyles, chain, before, lang, i);
    }
    assert ParaLayer(style) == ParagraphStyle(i == |chain| - 1) by {
      ChainRoot(paraStyles, cursor.paraStyleName, chain, i);
    }
    StyleNodeLines(style, names, lang);
  }

  /** The Paragraph Styles children are the walk's nodes reversed, read after direct formatting and the character style. */
  lemma ParagraphNodeChildren(cursor: Cursor, charStyles: map<string, Style>, paraStyles: map<string, Style>,
                              chain: seq<string>, lang: LanguageOptions)
    requires StylesAvailable(cursor, charStyles, paraStyles, chain)
    ensures InspectorTree(cursor, charStyles, paraStyles, chain, lang)[0].children ==
      Reversed(ParagraphLevel(paraStyles, chain, DirectNames(cursor, lang) + CharacterNames(cursor, charStyles, lang), lang).nodes)
  {
    var before := CharacterNamesBefore(cursor, charStyles, lang);
  }

  /** The lines of one paragraph style's node, read after the names in `before` are defined. */
  lemma StyleNodeLines(style: Style, before: set<string>, lang: LanguageOptions)
    ensures var node := StyleNode(style, before, lang);
      var shown := Accepted(ParaLayer(style), style.properties, lang);
      node.nodeName == style.displayName && |node.children| == |shown| &&
      forall k :: 0 <= k < |shown| ==>
        node.children[k] ==
          TreeNode(if shown[k].name in before || shown[k].name in NameSet(shown[..k])
                   then DisplayText(shown[k], lang) + ParaGreyMarker
                   else DisplayText(shown[k], lang), [])
  {
    LayerRows(ParaLayer(style), style.properties, before, lang);
  }

  /** The names defined once direct formatting and the character style have been read. */
  lemma CharacterNamesBefore(cursor: Cursor, charStyles: map<string, Style>, lang: LanguageOptions)
    returns (before: set<string>)
    requires cursor.charStyleName == "" || cursor.charStyleName in charStyles
    ensures before == DirectNames(cursor, lang) + CharacterNames(cursor, charStyles, lang)
    ensures before == CharacterLevel(cursor, charStyles, ResolveLayer(DirectFormatting, cursor.properties, {}, lang).defined, lang).defined
  {
    LayerDefines(DirectFormatting, cursor.properties, {}, lang);
    var direct := ResolveLayer(DirectFormatting, cursor.properties, {}, lang);
    if cursor.charStyleName != "" {
      LayerDefines(CharacterStyle, charStyles[cursor.charStyleName].properties, direct.defined, lang);
    }
    before := DirectNames(cursor, lang) + CharacterNames(cursor, charStyles, lang);
  }

  // Uniqueness of unmarked lines across the whole tree.

  predicate NoDuplicates(s: seq<string>) {
    forall i, j :: 0 <= i < j < |s| ==> s[i] != s[j]
  }

  function Elements(s: seq<string>): set<string> {
    set x | x in s
  }

  /** Property names that occur once in a property set, as in a UNO property set info. */
  predicate DistinctNames(properties: seq<Property>) {
    forall i, j :: 0 <= i < j < |properties| ==> properties[i].name != properties[j].name
  }

  /** The names of the unmarked rows, in order. */
  function UnmarkedNames(rows: seq<Row>): (names: seq<string>)
    ensures forall n :: n in names ==> exists k :: 0 <= k < |rows| && !rows[k].greyed && rows[k].name == n
  {
    if rows == [] then []
    else
      var last := rows[|rows| - 1];
      var init := UnmarkedNames(rows[..|rows| - 1]);
      if last.greyed then init else init + [last.name]
  }

  lemma NoDuplicatesAppend(a: seq<string>, b: seq<string>)
    requires NoDuplicates(a) && NoDuplicates(b) && Elements(a) !! Elements(b)
    ensures NoDuplicates(a + b) && Elements(a + b) == Elements(a) + Elements(b)
  {
    forall i, j | 0 <= i < j < |a + b| ensures (a + b)[i] != (a + b)[j] {
      if i < |a| && j >= |a| {
        assert (a + b)[i] in Elements(a) && (a + b)[j] == b[j - |a|] && b[j - |a|] in Elements(b);
      }
    }
  }

  /** With distinct cursor names, the last cursor property's name is not among those shown before it. */
  lemma FreshDirectName(properties: seq<Property>, lang: LanguageOptions)
    requires properties != [] && DistinctNames(properties)
    ensures properties[|properties| - 1].name !in NameSet(Accepted(DirectFormatting, properties[..|properties| - 1], lang))
  {
    var init := properties[..|properties| - 1];
    var p := properties[|properties| - 1];
    var shown := Accepted(DirectFormatting, init, lang);
    forall k | 0 <= k < |shown| ensures shown[k].name != p.name {
      AcceptedMembers(DirectFormatting, init, lang, shown[k]);
      var m :| 0 <= m < |init| && init[m] == shown[k];
      assert properties[m] == init[m];
    }
  }

  /**
    Within one layer the unmarked rows carry distinct names, none defined
    before, and they are exactly the names the layer defines. For direct
    formatting, which never greys, this needs the cursor's names to be
    distinct and new.
   */
  lemma {:induction false} LayerUnmarked(layer: Layer, properties: seq<Property>, defined: set<string>, lang: LanguageOptions)
    requires layer == DirectFormatting ==> DistinctNames(properties) && defined == {}
    ensures var r := ResolveLayer(layer, properties, defined, lang);
      var u := UnmarkedNames(r.rows);
      NoDuplicates(u) && Elements(u) !! defined && r.defined == defined + Elements(u)
    decreases |properties|
  {
    if properties != [] {
      var init := properties[..|properties| - 1];
      var p := properties[|properties| - 1];
      LayerUnmarked(layer, init, defined, lang);
      var prev := ResolveLayer(layer, init, defined, lang);
      var r := ResolveLayer(layer, properties, defined, lang);
      assert r == ResolveStep(layer, prev, p, lang);
      if Shows(layer, p, lang) {
        StepShown(layer, prev, p, lang);
        assert r.rows[..|r.rows| - 1] == prev.rows;
        if !r.rows[|r.rows| - 1].greyed {
          assert p.name !in prev.defined by {
            if layer == DirectFormatting {
              FreshDirectName(properties, lang);
              LayerDefines(layer, init, defined, lang);
            }
          }
          NoDuplicatesAppend(UnmarkedNames(prev.rows), [p.name]);
        }
      } else {
        StepHidden(layer, prev, p, lang);
      }
    }
  }

  /** Over the whole walk the unmarked rows carry distinct names, none defined before, defining exactly those. */
  function ChainUnmarked(paraStyles: map<string, Style>, chain: seq<string>, defined: set<string>, lang: LanguageOptions): seq<string>
    requires forall i :: 0 <= i < |chain| ==> chain[i] in paraStyles
    decreases |chain|
  {
    if chain == [] then []
    else
      var init := chain[..|chain| - 1];
      var style := paraStyles[chain[|chain| - 1]];
      var prev := ParagraphLevel(paraStyles, init, defined, lang);
      ChainUnmarked(paraStyles, init, defined, lang)
        + UnmarkedNames(ResolveLayer(ParaLayer(style), style.properties, prev.defined, lang).rows)
  }

  lemma {:induction false} ChainUnmarkedDistinct(paraStyles: map<string, Style>, chain: seq<string>,
                                                 defined: set<string>, lang: LanguageOptions)
    requires forall i :: 0 <= i < |chain| ==> chain[i] in paraStyles
    ensures var u := ChainUnmarked(paraStyles, chain, defined, lang);
      NoDuplicates(u) && Elements(u) !! defined &&
      ParagraphLevel(paraStyles, chain, defined, lang).defined == defined + Elements(u)
    decreases |chain|
  {
    if chain != [] {
      var init := chain[..|chain| - 1];
      var style := paraStyles[chain[|chain| - 1]];
      ChainUnmarkedDistinct(paraStyles, init, defined, lang);
      var prev := ParagraphLevel(paraStyles, init, defined, lang);
      LayerUnmarked(ParaLayer(style), style.properties, prev.defined, lang);
      NoDuplicatesAppend(ChainUnmarked(paraStyles, init, defined, lang),
                         UnmarkedNames(ResolveLayer(ParaLayer(style), style.properties, prev.defined, lang).rows));
    }
  }

  /** The names of all unmarked lines of the tree, in priority order: direct, character, paragraph walk. */
  function TreeUnmarked(cursor: Cursor, charStyles: map<string, Style>, paraStyles: map<string, Style>,
                        chain: seq<string>, lang: LanguageOptions): seq<string>
    requires StylesAvailable(cursor, charStyles, paraStyles, chain)
  {
    var direct := ResolveLayer(DirectFormatting, cursor.properties, {}, lang);
    UnmarkedNames(direct.rows) + CharacterUnmarked(cursor, charStyles, direct.defined, lang)
      + ChainUnmarked(paraStyles, chain, CharacterLevel(cursor, charStyles, direct.defined, lang).defined, lang)
  }

  /** The names of the unmarked lines of the character style, if any. */
  function CharacterUnmarked(cursor: Cursor, charStyles: map<string, Style>, defined: set<string>, lang: LanguageOptions): seq<string>
    requires cursor.charStyleName == "" || cursor.charStyleName in charStyles
  {
    if cursor.charStyleName == "" then []
    else UnmarkedNames(ResolveLayer(CharacterStyle, charStyles[cursor.charStyleName].properties, defined, lang).rows)
  }

  lemma CharacterUnmarkedDistinct(cursor: Cursor, charStyles: map<string, Style>, defined: set<string>, lang: LanguageOptions)
    requires cursor.charStyleName == "" || cursor.charStyleName in charStyles
    ensures var u := CharacterUnmarked(cursor, charStyles, defined, lang);
      NoDuplicates(u) && Elements(u) !! defined &&
      CharacterLevel(cursor, charStyles, defined, lang).defined == defined + Elements(u)
  {
    if cursor.charStyleName != "" {
      LayerUnmarked(CharacterStyle, charStyles[cursor.charStyleName].properties, defined, lang);
    } else {
      assert Elements([]) == {};
    }
  }

  /**
    For each property name at most one line of the whole tree is unmarked,
    and every name shown anywhere has one: the line of the highest-priority
    layer showing it.
   */
  lemma OneUnmarkedLinePerName(cursor: Cursor, charStyles: map<string, Style>, paraStyles: map<string, Style>,
                               chain: seq<string>, lang: LanguageOptions)
    requires StylesAvailable(cursor, charStyles, paraStyles, chain)
    requires DistinctNames(cursor.properties)
    ensures var u := TreeUnmarked(cursor, charStyles, paraStyles, chain, lang);
      NoDuplicates(u) &&
      Elements(u) == DirectNames(cursor, lang) + CharacterNames(cursor, charStyles, lang) + ChainNames(paraStyles, chain, lang)
  {
    var direct := ResolveLayer(DirectFormatting, cursor.properties, {}, lang);
    var before := CharacterNamesBefore(cursor, charStyles, lang);
    var ud := UnmarkedNames(direct.rows);
    var uc := CharacterUnmarked(cursor, charStyles, direct.defined, lang);
    var up := ChainUnmarked(paraStyles, chain, before, lang);
    assert NoDuplicates(ud) && Elements(ud) == direct.defined by {
      LayerUnmarked(DirectFormatting, cursor.properties, {}, lang);
    }
    assert NoDuplicates(uc) && Elements(uc) !! direct.defined && before == direct.defined + Elements(uc) by {
      CharacterUnmarkedDistinct(cursor, charStyles, direct.defined, lang);
    }
    assert NoDuplicates(up) && Elements(up) !! before && before + Elements(up) == before + ChainNames(paraStyles, chain, lang) by {
      ChainUnmarkedDistinct(paraStyles, chain, before, lang);
      ParagraphLevelDefines(paraStyles, chain, before, lang);
    }
    NoDuplicatesAppend(ud, uc);
    NoDuplicatesAppend(ud + uc, up);
  }
}
