# Vue single-file-component serializer, modelled in Dafny

`vue-ast-serializer` turns the tree that Vue's SFC parser produces back into
source text. Its only logic lives in `src/lib/serializer.ts`, which has three layers:

* **Template nodes.** `serializeTemplateItem` dispatches over the node kinds the template
  compiler produces: root, element, text, comment, simple expression,
  interpolation, attribute and directive. Any other kind throws.
  Directive arguments get a dispatch of their own: a static simple expression
  renders bare, a dynamic one in brackets, and anything else throws.
* **Sections.** `serializeScript`, `serializeStyle` and `serializeCustomBlock` each
  write one block's open tag, then its content, then its close tag. For a script
  or style, the open tag carries `lang`, then the `setup`/`scoped` flag, then the
  remaining entries. A custom block's open tag carries every entry of its map,
  `lang` included, in order.
* **Document.** `stringify` writes the template, the script, the setup script,
  every style and every custom block. The parts come in that order, with nothing
  between them, and an absent part writes nothing.

The model is functional. The tree is the datatype `Template.Node`, with one
constructor per handled kind and `Other` for every kind the dispatch does not
handle. Expressions are `Template.Expr`: `Simple(content, isStatic)`, or `Compound` for
every other expression kind. The template serializers, and `Document.Stringify`
above them, return `Result<string, Error>`. An `Err` stands for the thrown
exception, so "the document throws and produces no text" is a statement about that
result. The section serializers cannot throw and return a plain `string`.

A serializer's output can only be checked against something independent of it. The model
provides small readers that parse the serializer's output back:
* an attribute reader and a directive reader in `TemplateSyntax`;
* an open-tag reader and a section reader in `SectionSyntax`.

Round-trip lemmas show that these distinctions survive into the text, under the restrictions listed under Escaping:
* valued or valueless attribute;
* static or dynamic argument;
* each modifier;
* present or absent expression;
* each attribute of a section, in order.

## Behaviour worth knowing

* **Space before `/>`.** A self-closing element is written `<tag props />`, with a
  space before `/>`.
* **Self-closing children.** A self-closing element's children are never visited.
  An unhandled node kind under a self-closing element therefore does not throw.
  The fail-closed property is stated against `Template.Renderable`, which skips
  exactly those children. The property that every fully handled tree serializes
  is stated against `TemplateLaws.Handled`.

## Model

| member | source | states |
|---|---|---|
| Template.SerializeNode | src/lib/serializer.ts:87-109 | the dispatch succeeds exactly when the tree is renderable: every node reached is a handled kind and every directive argument and expression reached is simple; otherwise the whole result is an exception |
| Template.SerializeAll | src/lib/serializer.ts:27 | mapping a node list succeeds exactly when every node is renderable, and then yields one text per node, each equal to that node's own serialization, in order |
| Template.SerializeExpr | src/lib/serializer.ts:50-52 | a simple expression serializes whether static or not; any other expression kind reaching the dispatch is an unknown node type |
| Template.SerializeArg | src/lib/serializer.ts:65-77 | a directive argument serializes exactly when it is a simple expression; any other kind is an unknown argument type |
| Template.SerializeArgPart | src/lib/serializer.ts:79 | the `:arg` part fails exactly when an argument is present and not simple |
| Template.ModifiersText | src/lib/serializer.ts:80 | the modifiers part is every modifier with one `.` in front of it, and nothing when there are none |
| Template.SerializeExpPart | src/lib/serializer.ts:81 | the `="exp"` part fails exactly when an expression is present and not simple |
| TemplateLaws.HandledTreesSerialize | src/lib/serializer.ts:87-109 | a tree in which every node, including those under self-closing elements, is of a handled kind always serializes |
| TemplateLaws.UnknownKindFailsClosed | src/lib/serializer.ts:105-107 | an unhandled kind reached anywhere in the tree makes the whole serialization fail, with no text |
| TemplateLaws.DirectiveArgumentErrors | src/lib/serializer.ts:69-76 | a non-simple directive argument is reported as an unknown argument type, whatever the expression is |
| TemplateLaws.SerializeAllAppend | src/lib/serializer.ts:27 | serializing a list is a left-to-right map: the first failure in order is the one reported, and two successful lists' texts concatenate |
| TemplateLaws.ChildrenTextAppend | src/lib/serializer.ts:36 | children's texts are concatenated with no separator, so the text of two child lists is the concatenation of their texts |
| TemplateLaws.ElementLayout | src/lib/serializer.ts:30-40 | props are joined by single spaces with one leading space only when there is a prop; a self-closing element ends in ` />` with no children or close tag; any other element has its children's texts and an explicit close tag, even with no children |
| TemplateLaws.SelfClosingIgnoresChildren | src/lib/serializer.ts:33-34 | a self-closing element's text does not depend on its children |
| TemplateLaws.SelfClosingHidesUnknownChild | src/lib/serializer.ts:33-34 | an unhandled node under a self-closing `div` goes unnoticed: the result is `<div />` |
| TemplateLaws.AppendedChildrenText | src/lib/serializer.ts:36-38 | appending renderable children to an element that is not self-closing keeps it renderable; their texts go after the old children's and just before the close tag, and the open tag is unchanged |
| TemplateLaws.RootLayout | src/lib/serializer.ts:24-28 | the root renders as `<template` + captured attributes + `>` + children's texts with no separator + `</template>`; reading the attributes back out of that text recovers them when they hold no `>` |
| TemplateLaws.LeafKinds | src/lib/serializer.ts:42-56 | text is verbatim, a comment is wrapped in `<!--`/`-->`, a simple expression is its content static or not, an interpolation is wrapped in `{{ `/` }}`, and a compound expression in either place is an unknown node type |
| TemplateSyntax.AttributeRoundTrip | src/lib/serializer.ts:58-62 | a valueless attribute renders as its bare name with no `=`, a valued one as `name="value"`; reading either back yields the same name and value |
| TemplateSyntax.StaticArgRoundTrip | src/lib/serializer.ts:66 | the argument reader reads `:c` followed by `.`, `=` or nothing back as the static argument `c`, when `c` holds no `.` or `=` and does not open with `[`; the reader's half of the bare form the serializer writes |
| TemplateSyntax.DynamicArgRoundTrip | src/lib/serializer.ts:66 | the argument reader reads `:[c]` back as the dynamic argument `c`, whatever follows, when `c` holds no `]`; the reader's half of the bracketed form the serializer writes |
| TemplateSyntax.ArgPartRoundTrip | src/lib/serializer.ts:79 | the argument part, present or absent, static or dynamic, reads back unchanged from the directive's text |
| TemplateSyntax.ModifiersRoundTrip | src/lib/serializer.ts:80 | the modifiers, each after a `.`, read back as the same list, and no modifiers write nothing |
| TemplateSyntax.ExpPartRoundTrip | src/lib/serializer.ts:81 | a present expression is written `="exp"` and an absent one writes nothing; each reads back as written |
| TemplateSyntax.NameRoundTrip | src/lib/serializer.ts:83 | in text that opens with `v-`, a name, then `:`, `.`, `=` or nothing, the directive reader finds the `v-` and reads the name up to the first `:`, `.` or `=`, leaving the rest for the argument reader |
| TemplateSyntax.DirectiveRoundTrip | src/lib/serializer.ts:64-84 | a directive always renders with the explicit `v-` prefix, then argument, modifiers and expression; reading the text back recovers name, argument with its static flag, each modifier and the expression |
| Sections.Without | src/lib/serializer.ts:126-128 | every entry left after deleting keys has a key that was not deleted and comes from the original map, and no entry is added |
| Sections.WithoutMembers | src/lib/serializer.ts:126-128 | an entry survives the deletion exactly when it is in the map and its key is not one of the deleted keys |
| Sections.EntryTexts | src/lib/serializer.ts:129 | one `name="value"` text per entry, text i written from entry i |
| Sections.Valued | src/lib/serializer.ts:129 | every map entry becomes one valued attribute of the open tag, in order |
| Sections.ItemsTextIsJoin | src/lib/serializer.ts:129-130 | the `name="value"` texts each prefixed with a space and concatenated are the entries written as attributes, each after one space |
| Sections.JoinedEntries | src/lib/serializer.ts:129-130 | the entries joined by spaces, with one leading space only when the join is not empty, are the entries each written after one space |
| Sections.RestText | src/lib/serializer.ts:129-130 | the remaining entries' text is each entry as a valued attribute after one space, and nothing when there are none |
| Sections.ItemsTextAppend | src/lib/serializer.ts:129 | the attributes' text distributes over concatenation of attribute lists |
| Sections.FlaggedItemsText | src/lib/serializer.ts:123-130 | the open tag's attribute text is the `lang` text, then the flag text, then the remaining entries' text |
| Sections.FlaggedBlockText | src/lib/serializer.ts:122-133 | a script or style block is the section whose tag is the block's, whose attributes are `lang`, then the flag, then the remaining entries in order, and whose content is the block's |
| Sections.SerializeScript | src/lib/serializer.ts:122-133 | a script, plain or setup, is a `script` section with `lang` when set, then `setup` when set, then every entry not keyed `lang` or `setup`, and its content verbatim |
| Sections.SerializeStyle | src/lib/serializer.ts:138-149 | a style is a `style` section with `lang` when set, then `scoped` when set, then every entry not keyed `lang` or `scoped`, and its content verbatim |
| Sections.SerializeCustomBlock | src/lib/serializer.ts:163-171 | a custom block is a section named by its type, with every entry, `lang` included, as a valued attribute in order, and its content verbatim |
| SectionSyntax.ItemRoundTrip | src/lib/serializer.ts:129 | one written attribute reads back as the same name and value |
| SectionSyntax.AttrListRoundTrip | src/lib/serializer.ts:129-132 | a written attribute list followed by `>` reads back as the same list, in order |
| SectionSyntax.SectionRoundTrip | src/lib/serializer.ts:132 | a section written as open tag, content and close tag reads back as the same tag, attributes and content |
| SectionSyntax.FlaggedItemsOrder | src/lib/serializer.ts:123-130 | `lang` comes first when set, the flag next when true, then the other entries in their original order; no remaining entry is keyed `lang` or by the flag's name, and distinct keys stay distinct |
| SectionSyntax.WithoutAppend | src/lib/serializer.ts:127-128 | deleting keys distributes over concatenation of entry lists |
| SectionSyntax.WithoutKeepsDistinct | src/lib/serializer.ts:127-128 | deleting keys from a map with distinct keys leaves distinct keys |
| SectionSyntax.ScriptRoundTrip | src/lib/serializer.ts:122-133 | reading a script's text back yields a `script` section with `lang`, `setup` and the other entries in that order, and the content |
| SectionSyntax.StyleRoundTrip | src/lib/serializer.ts:138-149 | reading a style's text back yields a `style` section with `lang`, `scoped` and the other entries in that order, and the content |
| SectionSyntax.FlaggedRoundTrip | src/lib/serializer.ts:122-149 | the shared script and style shape reads back as its tag, its ordered attributes and its content |
| SectionSyntax.CustomBlockRoundTrip | src/lib/serializer.ts:163-171 | a custom block reads back with its type as the tag, every entry, `lang` included, in order, and its content |
| Document.SerializeTemplate | src/lib/serializer.ts:114-116 | a template block serializes exactly when it has no tree or its tree is renderable |
| Document.SerializeStyles | src/lib/serializer.ts:155-157 | the styles' text is empty exactly when there are no styles, and a single style is written as itself |
| Document.SerializeCustomBlocks | src/lib/serializer.ts:176-178 | one text per custom block, text i being block i's serialization, in order |
| Document.Stringify | src/lib/serializer.ts:186-194 | the document serializes exactly when its template, if any, does; no other part can fail |
| DocumentLaws.StringifyLayout | src/lib/serializer.ts:186-194 | the document is template, script, setup script, all styles and all custom blocks in that order with nothing between them, each absent part contributing nothing |
| DocumentLaws.TemplateErrorAborts | src/lib/serializer.ts:187 | when the template's tree throws, the whole document throws the same exception |
| DocumentLaws.EmptyDocument | src/lib/serializer.ts:186-194 | a document with no parts is the empty text |
| DocumentLaws.StylesAppend | src/lib/serializer.ts:155-157 | the styles' text distributes over concatenation of style lists |
| DocumentLaws.BlocksAppend | src/lib/serializer.ts:176-178 | the custom blocks' texts distribute over concatenation of block lists |
| DocumentLaws.StyleAppended | src/lib/serializer.ts:190-193 | a style added after the others is written after theirs and before every custom block |
| DocumentLaws.BlockAppended | src/lib/serializer.ts:191-193 | a custom block added after the others is written at the very end of the document |
| Examples.TemplateOnlyText | src/lib/serializer.ts:187-193 | a document holding only a template is exactly the template's text |
| Examples.EmptyTemplate | lib/serializer.test.ts:15 | an empty root serializes to `<template></template>` |
| Examples.SelfClosingDiv | lib/serializer.test.ts:19 | a self-closing `div` under the root serializes to `<template><div /></template>` |
| Examples.StaticDirective | lib/serializer.test.ts:23-26 | the `bind` directive with static argument `a`, modifier `b:c` and expression `d` serializes to `v-bind:a.b:c="d"` |
| Examples.DynamicDirective | lib/serializer.test.ts:30-33 | the `on` directive with dynamic argument `a` serializes to `v-on:[a].b:c="d"` |
| Examples.DirectiveWithoutExpression | lib/serializer.test.ts:37 | `v-show` with no argument, modifiers or expression serializes to `v-show` |
| Examples.AttributeWithoutValue | lib/serializer.test.ts:41 | a valueless `alt` serializes to `alt` |
| Examples.AttributeWithValue | lib/serializer.test.ts:45 | `alt` with value `hello` serializes to `alt="hello"` |
| Examples.InterpolationText | lib/serializer.test.ts:49 | an interpolation of `hello` serializes to `{{ hello }}` |
| Examples.CommentText | lib/serializer.test.ts:53 | the comment ` hello! ` serializes to `<!-- hello! -->` |
| Examples.ConditionalElement | lib/serializer.test.ts:57 | a `div` with `v-if="test"` and text `hello` serializes to `<div v-if="test">hello</div>` |
| Examples.TemplateWithAttributes | lib/serializer.test.ts:83 | a root with captured attributes ` lang="pug"` serializes to `<template lang="pug"></template>` |
| Examples.ScopedStyle | lib/serializer.test.ts:87 | the scoped `postcss` style serializes to `<style lang="postcss" scoped>.test { me: 1px }</style>`, its map's `lang` and `scoped` entries not repeated |
| Examples.TemplateThenStyle | src/lib/serializer.ts:187-193 | a document with a template and one style is the template's text followed by the style's |
| Examples.TemplateAndStyle | lib/serializer.test.ts:87 | the template with attributes followed by the scoped style serializes to the two texts back to back |
| Examples.TypedScript | lib/serializer.test.ts:91 | the `ts` script serializes to `<script lang="ts">console.log('Here!')</script>` |
| Examples.SetupScript | lib/serializer.test.ts:95 | the `ts` setup script serializes to `<script lang="ts" setup>console.log('Here!')</script>` |
| Examples.I18nBlock | lib/serializer.test.ts:99 | the `i18n` block with entry `x="1"` serializes to `<i18n x="1">` + content + `</i18n>` |

## Left out

- **Root attributes.** Regular-expression extraction of the root's attributes from its source text (`src/lib/serializer.ts:25`) is not modelled: the captured text is the `attrs` field of `Root`. `TemplateLaws.CapturedRootAttrs` reads the first `>` after `<template`. It ignores that the expression's `.` does not match a line break, so a multi-line opening tag is not covered.
- **Debug logging.** `console.log` output (`src/lib/serializer.ts:74,106,168`) is a side effect that does not affect the returned text.
- **Exception messages.** `Error` values carry only the kind of failure (unknown node type or unknown argument type), not the numeric kind in the message.
- **Copying the attribute map.** `structuredClone` (`src/lib/serializer.ts:126,142`) is not modelled: `Sections.Without` returns a new sequence, so the block's own map is never changed.
- **The parser.** The Vue SFC parser is not part of this model. `Document.Stringify` takes the parsed descriptor instead of the whole parse result. The parse-then-serialize round trips of `lib/serializer.test.ts` appear only as concrete trees in `Examples`. The tests for multiple root elements, nested children and bound `class`/`style` directives have no example of their own; the general lemmas cover them.
- **Language and flags.** A block's `lang` is a string, with the empty string meaning "not set", as JavaScript's falsy check treats it. `setup` and `scoped` are booleans that stand for the truthiness of those fields.
- **Attribute values.** Map values are strings. A value of `true` from the parser is its text `"true"`, which is what the template literal writes.
- **Entry order.** Entries are a sequence in `Object.entries` order. JavaScript's placement of integer-like keys first is taken to be already reflected in that order.
- **Escaping.** No value is escaped, in the code or in the model. Text that breaks the restrictions below serializes but does not read back unambiguously, so each round-trip lemma requires them:
  - `TemplateSyntax.AttributeRoundTrip`: the name holds no `=`; the value may be anything.
  - `TemplateSyntax.DirectiveRoundTrip`: the name holds no `:`, `.` or `=`; a static argument holds no `.` or `=` and does not open with `[`; a dynamic argument holds no `]`; no modifier holds `.` or `=`; the expression, when present, is simple and may hold anything.
  - `TemplateLaws.RootLayout`: the captured root attributes read back when they hold no `>`.
  - `SectionSyntax.ScriptRoundTrip` and `SectionSyntax.StyleRoundTrip`: `lang` holds no `"`; every entry's key holds no space, `=` or `>`, and its value no `"`.
  - `SectionSyntax.CustomBlockRoundTrip`: the block type holds no space or `>`; entries as for scripts.
  - `SectionSyntax.SectionRoundTrip`: the tag holds no space or `>`; every attribute's name holds no space, `=` or `>`, and its value no `"`.
  - `SectionSyntax.FlaggedRoundTrip`: the tag holds no space or `>`; the flag's name holds no space, `=` or `>`; `lang` and the entries as for scripts.
- **Build configuration.** `vite.config.mjs` holds build and test configuration only.
- **Example texts.** `Examples.ScopedStyle`, `Examples.TypedScript`, `Examples.SetupScript`, `Examples.I18nBlock`, `Examples.ConditionalElement`, `Examples.TemplateWithAttributes` and `Examples.TemplateAndStyle` state the expected text as a few literals joined with `+` (open tag, content, close tag), not as one literal.
