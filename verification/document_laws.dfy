/** Properties of document assembly: the fixed order of the parts, no
    separators, absent parts contributing nothing, and the template's
    exception aborting the whole document. */
module DocumentLaws {

  import opened Wrappers
  import opened Strings
  import opened Template
  import opened Sections
  import opened Document

  /** The template's text, empty when there is no template or no tree. */
  function TemplatePart(d: Descriptor): string
    requires TemplateRenders(d)
  {
    if d.template.Some? && d.template.value.ast.Some? then SerializeNode(d.template.value.ast.value).value
    else ""
  }

  /** A script block's text, empty when it is absent. */
  function ScriptPart(script: Option<ScriptBlock>): string
  {
    if script.Some? then SerializeScript(script.value) else ""
  }

  /** The custom blocks' texts back to back. */
  function BlocksPart(d: Descriptor): string
  {
    Join(SerializeCustomBlocks(d.customBlocks), "")
  }

  lemma JoinFour(a: string, b: string, c: string, e: string)
    ensures Join([a, b, c, e], "") == a + b + c + e
  {
    assert [a, b, c, e][1..] == [b, c, e];
    assert [b, c, e][1..] == [c, e];
    assert [c, e][1..] == [e];
    assert Join([c, e], "") == c + e;
    assert Join([b, c, e], "") == b + (c + e);
    assert Join([a, b, c, e], "") == a + (b + (c + e));
  }

  /** The document text is the template, the script, the setup script, every
      style and every custom block, in that order with nothing between them;
      each absent part contributes the empty string. */
  lemma StringifyLayout(d: Descriptor)
    requires TemplateRenders(d)
    ensures Stringify(d) == Ok(TemplatePart(d) + ScriptPart(d.script) + ScriptPart(d.scriptSetup)
                               + SerializeStyles(d.styles) + BlocksPart(d))
  {
    var t, s, ss, st := TemplatePart(d), ScriptPart(d.script), ScriptPart(d.scriptSetup), SerializeStyles(d.styles);
    JoinConcat([t, s, ss, st], SerializeCustomBlocks(d.customBlocks));
    JoinFour(t, s, ss, st);
  }

  /** When the template's tree throws, the document throws the same
      exception and yields no text. */
  lemma TemplateErrorAborts(d: Descriptor)
    requires !TemplateRenders(d)
    ensures Stringify(d) == Err(SerializeNode(d.template.value.ast.value).error)
  {
  }

  /** A document with no parts is the empty text. */
  lemma EmptyDocument()
    ensures Stringify(Descriptor(None, None, None, [], [])) == Ok("")
  {
    StringifyLayout(Descriptor(None, None, None, [], []));
  }

  /** The styles' text distributes over concatenation of style lists. */
  lemma StylesAppend(a: seq<StyleBlock>, b: seq<StyleBlock>)
    ensures SerializeStyles(a + b) == SerializeStyles(a) + SerializeStyles(b)
  {
    var ta := seq(|a|, i requires 0 <= i < |a| => SerializeStyle(a[i]));
    var tb := seq(|b|, i requires 0 <= i < |b| => SerializeStyle(b[i]));
    assert seq(|a + b|, i requires 0 <= i < |a + b| => SerializeStyle((a + b)[i])) == ta + tb;
    JoinConcat(ta, tb);
  }

  /** The custom blocks' texts distribute over concatenation of block lists. */
  lemma BlocksAppend(a: seq<CustomBlock>, b: seq<CustomBlock>)
    ensures SerializeCustomBlocks(a + b) == SerializeCustomBlocks(a) + SerializeCustomBlocks(b)
  {
  }

  /** Adding a style after the others puts its text after theirs and before
      every custom block. */
  lemma StyleAppended(d: Descriptor, style: StyleBlock)
    requires TemplateRenders(d)
    ensures Stringify(d.(styles := d.styles + [style]))
         == Ok(TemplatePart(d) + ScriptPart(d.script) + ScriptPart(d.scriptSetup)
               + SerializeStyles(d.styles) + SerializeStyle(style) + BlocksPart(d))
  {
    var d' := d.(styles := d.styles + [style]);
    StringifyLayout(d');
    StylesAppend(d.styles, [style]);
    var base := TemplatePart(d) + ScriptPart(d.script) + ScriptPart(d.scriptSetup);
    Assoc(base, SerializeStyles(d.styles), SerializeStyle(style));
  }

  /** Adding a custom block after the others appends its text to the end of
      the document. */
  lemma BlockAppended(d: Descriptor, block: CustomBlock)
    requires TemplateRenders(d)
    ensures Stringify(d.(customBlocks := d.customBlocks + [block]))
         == Ok(Stringify(d).value + SerializeCustomBlock(block))
  {
    var d' := d.(customBlocks := d.customBlocks + [block]);
    var head := TemplatePart(d) + ScriptPart(d.script) + ScriptPart(d.scriptSetup) + SerializeStyles(d.styles);
    StringifyLayout(d);
    StringifyLayout(d');
    assert BlocksPart(d') == BlocksPart(d) + SerializeCustomBlock(block) by {
      BlocksAppend(d.customBlocks, [block]);
      assert SerializeCustomBlocks([block]) == [SerializeCustomBlock(block)];
      JoinConcat(SerializeCustomBlocks(d.customBlocks), [SerializeCustomBlock(block)]);
    }
    Assoc(head, BlocksPart(d), SerializeCustomBlock(block));
  }
}
