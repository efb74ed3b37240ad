/** Document assembly: `serializeTemplate`, `serializeStyles`,
    `serializeCustomBlocks` and `stringify` in src/lib/serializer.ts. */
module Document {

  import opened Wrappers
  import opened Strings
  import opened Template
  import opened Sections

  /** The template block: its parsed tree, when the parser produced one. */
  datatype TemplateBlock = TemplateBlock(ast: Option<Node>)

  /** The parsed component document, as the parser's descriptor holds it. */
  datatype Descriptor = Descriptor(
    template: Option<TemplateBlock>,
    script: Option<ScriptBlock>,
    scriptSetup: Option<ScriptBlock>,
    styles: seq<StyleBlock>,
    customBlocks: seq<CustomBlock>)

  /** `serializeTemplate`: the tree's text, or nothing without a tree. */
  function SerializeTemplate(template: TemplateBlock): (r: Result<string, Error>)
    ensures r.Ok? <==> template.ast.None? || Renderable(template.ast.value)
  {
    if template.ast.Some? then SerializeNode(template.ast.value) else Ok("")
  }

  /** Each style block's text, in order. */
  function StyleTexts(styles: seq<StyleBlock>): (r: seq<string>)
    ensures |r| == |styles|
    ensures forall i :: 0 <= i < |styles| ==> r[i] == SerializeStyle(styles[i])
  {
    seq(|styles|, i requires 0 <= i < |styles| => SerializeStyle(styles[i]))
  }

  /** `serializeStyles`: every style block's text, back to back. Every
      style writes something, so the text is empty exactly when there are no
      styles, and a single style is written as itself. */
  function SerializeStyles(styles: seq<StyleBlock>): (r: string)
    ensures r == "" <==> |styles| == 0
    ensures |styles| == 1 ==> r == SerializeStyle(styles[0])
  {
    var texts := StyleTexts(styles);
    forall i | 0 <= i < |texts| ensures |texts[i]| > 0 {
      assert texts[i] == SectionText("style", FlaggedItems("scoped", styles[i].lang, styles[i].scoped, styles[i].attrs), styles[i].content);
    }
    JoinEmpty(texts, "");
    Join(texts, "")
  }

  /** `serializeCustomBlocks`: each custom block's text, in order. */
  function SerializeCustomBlocks(blocks: seq<CustomBlock>): (r: seq<string>)
    ensures |r| == |blocks|
    ensures forall i :: 0 <= i < |blocks| ==> r[i] == SerializeCustomBlock(blocks[i])
  {
    seq(|blocks|, i requires 0 <= i < |blocks| => SerializeCustomBlock(blocks[i]))
  }

  /** Whether the document's template, if any, serializes. */
  predicate TemplateRenders(d: Descriptor)
  {
    d.template.None? || d.template.value.ast.None? || Renderable(d.template.value.ast.value)
  }

  /** `stringify`: template, script, setup script, styles and custom blocks,
      joined with no separator; only the template can throw. */
  function Stringify(d: Descriptor): (r: Result<string, Error>)
    ensures r.Ok? <==> TemplateRenders(d)
  {
    var template :- if d.template.Some? then SerializeTemplate(d.template.value) else Ok("");
    var script := if d.script.Some? then SerializeScript(d.script.value) else "";
    var setup := if d.scriptSetup.Some? then SerializeScript(d.scriptSetup.value) else "";
    var style := SerializeStyles(d.styles);
    var blocks := SerializeCustomBlocks(d.customBlocks);
    Ok(Join([template, script, setup, style] + blocks, ""))
  }
}
