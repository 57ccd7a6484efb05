# Writer sidebar inspector: layered property resolution

This project models the text panel of Writer's sidebar inspector
(`sw/source/uibase/sidebar/WriterInspectorTextPanel.cxx`). For the text
position at the cursor, the panel builds a tree with three top-level nodes:

- **Paragraph Styles**: one child per paragraph style, from the root of the
  hierarchy down to the applied style;
- **Character Styles**: no child, or one child for the applied character style;
- **Direct Formatting**: the properties set directly at the cursor.

A property name is *defined* by the first layer, in priority order, that
shows it. The order is direct formatting, then the character style, then the
paragraph styles from the applied one upwards. Every later line for the same
name carries a grey marker. Each line is produced by `GetPropertyValues`,
which formats a property's name and value or rejects it.

The project has four modules:

- `UStrings` (`ustrings.dfy`) covers the OUString operations the panel relies
  on. These are `indexOf` and the decimal, hexadecimal and rounded-decimal
  renderings of numbers. Each rendering has a parser partner, so the model
  can prove that a displayed number reads back as the value it came from.
- `PropertyFormatter` (`property_formatter.dfy`) is `GetPropertyValues`, as a
  function from a name, a value and the two language switches to an optional
  line.
- `WriterInspector` (`writer_inspector.dfy`) is `UpdateTree` and
  `AttrChangedNotify` as methods.
  - The panel's `aIsDefined` dictionary is a `map<string, bool>` that the
    loops update.
  - The children lists are sequences that the loops append to.
  - The walk up the paragraph style hierarchy is a `while` loop.
  - The methods are proved against specification functions:
    `ResolveLayer`, `CharacterLevel`, `ParagraphLevel` and `InspectorTree`.
- `WriterInspectorProofs` (`writer_inspector_proofs.dfy`) proves what the
  tree promises, stated on those functions:
  - which properties appear in which node, and in what order;
  - which lines are greyed;
  - how the paragraph style chain is laid out;
  - that each property name is shown unmarked at most once in the whole tree.

The host's UNO queries are replaced by snapshots. A `Cursor` holds the
cursor's property list, each entry being a name, a `PropertyState` and a
value, together with its character and paragraph style names. Each style
family is a `map` from style name to `Style`.

The walk up the paragraph style hierarchy is bounded by a ghost `chain`. This
is the list of style names from the applied style to the root. It is required
to exist (`IsParaChain`), and `ParaChainUnique` shows it is determined by the
style family, so it adds no input.

## Model

| member | source | states |
|---|---|---|
| PropertyFormatter.GetPropertyValues | sw/source/uibase/sidebar/WriterInspectorTextPanel.cxx:62-108 | The formatter rejects a property exactly when it is hidden or no branch extracts its value. A property is hidden when its name contains "Asian" and CJK fonts are enabled, or contains "Complex" and CTL fonts are enabled. No branch extracts an empty string or any other kind of value. Every accepted line starts with the name followed by five spaces. |
| PropertyFormatter.DisplayedText | sw/source/uibase/sidebar/WriterInspectorTextPanel.cxx:71-103 | What follows the name and separator, stated on the name alone: a boolean gives true or false, and a non-empty string gives itself. A slant gives "italic" exactly for ITALIC, else "normal". An integer gives "0x" plus hex when the name contains "Color", else decimal. A weight gives "bold" exactly when above 100, else "normal". Any other double gives its value rounded to hundredths. |
| PropertyFormatter.IntegersReadBack | sw/source/uibase/sidebar/WriterInspectorTextPanel.cxx:86-103 | The integer shown for a long or short value parses back to that value, in base 16 after "0x" for colours and in base 10 otherwise. This includes negative values. |
| PropertyFormatter.DecimalsReadBack | sw/source/uibase/sidebar/WriterInspectorTextPanel.cxx:93-99 | A double whose name does not mention "Weight" is shown as a decimal. That decimal parses back to a whole number of hundredths within half a hundredth of the value. |
| UStrings.IndexOf | sw/source/uibase/sidebar/WriterInspectorTextPanel.cxx:66-68 | The result is the first position where the substring occurs, or -1 exactly when it occurs nowhere. |
| UStrings.ContainsIgnoresPadding | sw/source/uibase/sidebar/WriterInspectorTextPanel.cxx:88-95 | Testing for "Color" or "Weight" on the name plus its trailing spaces gives the same answer as testing the name alone. |
| UStrings.ParseIntText | sw/source/uibase/sidebar/WriterInspectorTextPanel.cxx:89-91 | The rendering of an integer in base 10 or 16 (a minus sign, then the digits of the magnitude) parses back to the integer. |
| UStrings.ParseHundredthsText | sw/source/uibase/sidebar/WriterInspectorTextPanel.cxx:98 | The rendering of a whole number of hundredths parses back to that number. In that rendering, trailing zeros of the fraction and a bare decimal point are dropped. |
| WriterInspector.AddLayerEntries | sw/source/uibase/sidebar/WriterInspectorTextPanel.cxx:168-186 | One loop over a property list, the same in shape as the loops at lines 132-146 and 205-226. The lines it appends and the new `aIsDefined` are those of `ResolveLayer` on the old defined names. Each line is greyed outside direct formatting when its name is already defined; otherwise the name is entered. |
| WriterInspector.AddParagraphStyles | sw/source/uibase/sidebar/WriterInspectorTextPanel.cxx:193-230 | The walk from the applied paragraph style to the root appends one child per style in walk order. The children and the new `aIsDefined` are those of `ParagraphLevel`. The walk ends because the chain is finite. |
| WriterInspector.UpdateTree | sw/source/uibase/sidebar/WriterInspectorTextPanel.cxx:110-244 | The store is extended by exactly the `InspectorTree` of the snapshots. The three layers share one defined-name map in priority order, and the paragraph children are reversed. |
| WriterInspector.InspectorTree | sw/source/uibase/sidebar/WriterInspectorTextPanel.cxx:232-243 | Three nodes, "Paragraph Styles", "Character Styles" and "Direct Formatting", in that order. The first has one child per style of the chain; the second has none without a character style and one with it. |
| WriterInspector.AttrChangedNotify | sw/source/uibase/sidebar/WriterInspectorTextPanel.cxx:246-255 | The nodes handed to the widget are empty unless there is a document whose cursor is on a text node. In that case they are exactly the inspector tree. |
| WriterInspectorProofs.AcceptedMembers | sw/source/uibase/sidebar/WriterInspectorTextPanel.cxx:171-175 | A layer shows a property exactly when the property is in its list, the layer considers its state and the formatter accepts it. |
| WriterInspectorProofs.ParagraphStyleFilter | sw/source/uibase/sidebar/WriterInspectorTextPanel.cxx:205-214 | The root paragraph style shows every property the formatter accepts, whatever its state. A non-root style shows exactly the accepted ones in DIRECT_VALUE state. |
| WriterInspectorProofs.LayerDefines | sw/source/uibase/sidebar/WriterInspectorTextPanel.cxx:138-144 | A layer yields one line per property it shows. Afterwards exactly the names of those properties are defined in addition to those before. |
| WriterInspectorProofs.LayerRows | sw/source/uibase/sidebar/WriterInspectorTextPanel.cxx:205-226 | The k-th line of a layer belongs to the k-th property it shows and carries that property's formatted text. Outside direct formatting it is greyed exactly when the name was defined before the layer or by an earlier line of the same layer. |
| WriterInspectorProofs.RejectedNamesStayUndefined | sw/source/uibase/sidebar/WriterInspectorTextPanel.cxx:134-144 | A name that no shown property carries neither appears in the layer's lines nor becomes defined by it. |
| WriterInspectorProofs.DirectFormattingNode | sw/source/uibase/sidebar/WriterInspectorTextPanel.cxx:132-146 | The Direct Formatting node lists every cursor property in DIRECT_VALUE state that the formatter accepts. The lines are in input order, each the formatted text with no grey marker. |
| WriterInspectorProofs.CharacterStylesNode | sw/source/uibase/sidebar/WriterInspectorTextPanel.cxx:159-189 | An empty character style name gives no child. Otherwise there is exactly one child, labelled with the style's display name, listing its shown properties in order. A line carries "  !!<GREY>!!" exactly when direct formatting or an earlier line of the style showed the name. |
| WriterInspectorProofs.ParagraphStyleChild | sw/source/uibase/sidebar/WriterInspectorTextPanel.cxx:193-233 | Child j of Paragraph Styles is the style j steps below the root, so the root comes first and the applied style last. It is labelled with the style's display name and lists the properties that style shows, in order. A line carries "    !!<GREY>!! " exactly when direct formatting, the character style, a more specific paragraph style or an earlier line of the same style showed the name. |
| WriterInspectorProofs.ParagraphLevelNode | sw/source/uibase/sidebar/WriterInspectorTextPanel.cxx:228-229 | The walk yields one node per style, in walk order. Each style is read after the names of every style walked before it. |
| WriterInspectorProofs.ParagraphLevelDefines | sw/source/uibase/sidebar/WriterInspectorTextPanel.cxx:216-220 | After the walk, the names shown by the styles walked are defined in addition to those before. |
| WriterInspectorProofs.ChainRoot | sw/source/uibase/sidebar/WriterInspectorTextPanel.cxx:208 | In a walk, the style with an empty parent name is the last one and only that one. |
| WriterInspectorProofs.ParaChainUnique | sw/source/uibase/sidebar/WriterInspectorTextPanel.cxx:229 | Following parent names from a style gives at most one finite walk, so the ghost chain is determined by the style family. |
| WriterInspectorProofs.ParaChainAcyclic | sw/source/uibase/sidebar/WriterInspectorTextPanel.cxx:193-201 | A walk that reaches the root never visits a style twice. |
| WriterInspectorProofs.LayerUnmarked | sw/source/uibase/sidebar/WriterInspectorTextPanel.cxx:177-180 | Within one layer the unmarked lines carry distinct names, none of them defined before the layer. They are exactly the names the layer adds. For direct formatting this needs the cursor's property names to be distinct. |
| WriterInspectorProofs.ChainUnmarkedDistinct | sw/source/uibase/sidebar/WriterInspectorTextPanel.cxx:216-220 | Over the whole paragraph walk the unmarked lines carry distinct names, none defined before the walk. They are exactly the names the walk adds. |
| WriterInspectorProofs.OneUnmarkedLinePerName | sw/source/uibase/sidebar/WriterInspectorTextPanel.cxx:177-220 | Across the whole tree, each property name appears unmarked at most once. The names that appear unmarked are exactly those shown by some layer. |

## Left out

- `Create` and the panel's constructor are window creation, argument checks and registration of the change link. They are not part of this model.
- UNO access is replaced by snapshots of the cursor and the two style families. This covers `CreateXTextRange`, the property set and property state queries, `getStyleFamilies` and `getByName`.
  - A `getByName` failure on a missing style raises an exception in the panel; the model requires the named styles to exist (`StylesAvailable`).
  - A `UNO_QUERY_THROW` failure is not modelled.
- A paragraph style family whose parent links form a cycle makes the panel's walk loop forever. The model requires the walk to end (`IsParaChain`) and proves that such a walk is acyclic.
- `updateEntries` and the tree widget are not modelled. `AttrChangedNotify` returns the nodes it would hand over.
- `SfxObjectShell::Current()` and the text-node test are two boolean inputs of `AttrChangedNotify`.
- `SvtLanguageOptions` is represented only by the two switches the formatter reads, given as inputs.
- `aIsDefined[name]` inserts a false entry when it reads an absent key. The model reads an absent key as false and does not insert it. The set of names mapped to true is the same.
- GetPropertyValues: `uno::Any` extraction is one value case per branch, tried in the panel's order. The widening conversions of `>>=` are not modelled, for example a short or a byte read as a long, or a float read as a double. Under widening, a short would be shown by the long branch instead. The text is the same decimal, except that a name containing "Color" would get hex.
- GetPropertyValues: the width of `long`, 32 or 64 bits depending on the platform, is not modelled. Integers are unbounded.
- DecimalsReadBack: doubles are exact reals, so the binary representation of `fValue * 100`, its rounding error and the number of significant digits `OUString::number` writes for a double are not modelled. The claim is stated for the exact value.
- DecimalsReadBack: the sign of a negative value that rounds to zero is not modelled. The model renders it as "0", while the panel may render it as "-0".
- The in-place `std::reverse` of the paragraph children is the function `Reversed` on the children sequence.

