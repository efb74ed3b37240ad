/** Concrete documents from lib/serializer.test.ts, written as the trees
    and descriptors the parser hands over, with the exact text each one
    serializes to. */
module Examples {

  import opened Wrappers
  import opened Strings
  import opened Template
  import opened Sections
  import opened Document
  import opened DocumentLaws
  import opened TemplateLaws

  /** A document holding only a template with the given tree. */
  function TemplateOnly(root: Node): Descriptor
  {
    Descriptor(Some(TemplateBlock(Some(root))), None, None, [], [])
  }

  /** A document whose template wraps one element. */
  function WithElement(e: Node): Descriptor
  {
    TemplateOnly(Root("", [e]))
  }

  /** A document with only a template is exactly the template's text. */
  lemma TemplateOnlyText(root: Node)
    requires Renderable(root)
    ensures Stringify(TemplateOnly(root)) == SerializeNode(root)
  {
    var d := TemplateOnly(root);
    StringifyLayout(d);
    assert SerializeStyles([]) == "";
    assert SerializeCustomBlocks([]) == [];
    assert TemplatePart(d) + "" + "" + "" + "" == TemplatePart(d);
  }

  /** A one-node list serializes to that node's text alone. */
  lemma Single(n: Node)
    requires Renderable(n)
    ensures SerializeAll([n]) == Ok([SerializeNode(n).value])
  {
    var r := SerializeAll([n]);
    assert [n][0] == n;
    assert r.Ok? && |r.value| == 1;
    assert SerializeNode(n) == Ok(r.value[0]);
    assert r.value == [r.value[0]];
  }

  lemma EmptyTemplate()
    ensures Stringify(TemplateOnly(Root("", []))) == Ok("<template></template>")
  {
    assert SerializeAll([]) == Ok([]);
    TemplateOnlyText(Root("", []));
    assert "<template" + "" + ">" + "" + "</template>" == "<template></template>";
  }

  lemma SelfClosingDiv()
    ensures Stringify(WithElement(Element("div", [], true, []))) == Ok("<template><div /></template>")
  {
    var div := Element("div", [], true, []);
    assert SerializeAll([]) == Ok([]);
    assert "<" + "div" + "" + " />" == "<div />";
    assert SerializeNode(div) == Ok("<div />");
    RootOfOne(div);
    TemplateOnlyText(Root("", [div]));
    assert "<template>" + "<div />" + "</template>" == "<template><div /></template>";
  }

  /** A root with no attributes around one node. */
  lemma RootOfOne(n: Node)
    requires Renderable(n)
    ensures SerializeNode(Root("", [n])) == Ok("<template>" + SerializeNode(n).value + "</template>")
  {
    Single(n);
    assert Join([SerializeNode(n).value], "") == SerializeNode(n).value;
    assert "<template" + "" + ">" == "<template>";
  }

  /** `:a.b:c="d"`: the shorthand comes back as `v-bind`. */
  lemma StaticDirective()
    ensures SerializeNode(Directive("bind", Some(Simple("a", true)), ["b:c"], Some(Simple("d", false))))
         == Ok("v-bind:a.b:c=\"d\"")
  {
    assert ModifiersText(["b:c"]) == ".b:c";
    assert SerializeArg(Simple("a", true)) == Ok("a");
    assert ":" + "a" == ":a";
    assert SerializeArgPart(Some(Simple("a", true))) == Ok(":a");
    assert SerializeExpr(Simple("d", false)) == Ok("d");
    assert "=\"" + "d" + "\"" == "=\"d\"";
    assert SerializeExpPart(Some(Simple("d", false))) == Ok("=\"d\"");
    assert "v-" + "bind" + ":a" + ".b:c" + "=\"d\"" == "v-bind:a.b:c=\"d\"";
  }

  /** `@[a].b:c="d"`: the shorthand comes back as `v-on`, the argument
      bracketed. */
  lemma DynamicDirective()
    ensures SerializeNode(Directive("on", Some(Simple("a", false)), ["b:c"], Some(Simple("d", false))))
         == Ok("v-on:[a].b:c=\"d\"")
  {
    assert ModifiersText(["b:c"]) == ".b:c";
    assert SerializeExpr(Simple("a", false)) == Ok("a");
    assert "[" + "a" + "]" == "[a]";
    assert ":" + "[a]" == ":[a]";
    assert SerializeArg(Simple("a", false)) == Ok("[a]");
    assert SerializeArgPart(Some(Simple("a", false))) == Ok(":[a]");
    assert SerializeExpr(Simple("d", false)) == Ok("d");
    assert "=\"" + "d" + "\"" == "=\"d\"";
    assert SerializeExpPart(Some(Simple("d", false))) == Ok("=\"d\"");
    assert "v-" + "on" + ":[a]" + ".b:c" + "=\"d\"" == "v-on:[a].b:c=\"d\"";
  }

  lemma DirectiveWithoutExpression()
    ensures SerializeNode(Directive("show", None, [], None)) == Ok("v-show")
  {
    assert "v-" + "show" + "" + "" + "" == "v-show";
  }

  lemma AttributeWithoutValue()
    ensures SerializeNode(Attribute("alt", None)) == Ok("alt")
  {
  }

  lemma AttributeWithValue()
    ensures SerializeNode(Attribute("alt", Some(Text("hello")))) == Ok("alt=\"hello\"")
  {
    assert "alt" + "=\"" + "hello" + "\"" == "alt=\"hello\"";
  }

  lemma InterpolationText()
    ensures SerializeNode(Interpolation(Simple("hello", false))) == Ok("{{ hello }}")
  {
    assert "{{ " + "hello" + " }}" == "{{ hello }}";
  }

  lemma CommentText()
    ensures SerializeNode(Comment(" hello! ")) == Ok("<!-- hello! -->")
  {
    assert "<!--" + " hello! " + "-->" == "<!-- hello! -->";
  }


  /** A script or style block with no entries besides `lang` and its flag:
      the open tag, the content and the close tag. */
  lemma NoRest(tag: string, flagName: string, lang: string, flag: bool, attrs: Attrs, content: string, open: string)
    requires Without(attrs, {"lang", flagName}) == []
    requires open == "<" + tag + (if lang != "" then " " + AttrText("lang", Some(lang)) else "")
                     + (if flag then " " + AttrText(flagName, None) else "") + ">"
    ensures FlaggedBlockText(tag, flagName, lang, flag, attrs, content) == open + content + ("</" + tag + ">")
  {
    assert RestText([]) == "";
    var langText := if lang != "" then " " + AttrText("lang", Some(lang)) else "";
    var flagText := if flag then " " + AttrText(flagName, None) else "";
    var front := "<" + tag + langText + flagText + ">" + content;
    Assoc(front, "</" + tag, ">");
    Assoc(front, "</", tag);
    assert "<" + tag + langText + flagText + "" == "<" + tag + langText + flagText;
  }

  /** An element that is not self-closing, with one prop and one child. */
  lemma OnePropOneChild(tag: string, prop: Node, child: Node)
    requires Renderable(prop) && Renderable(child)
    ensures SerializeNode(Element(tag, [prop], false, [child]))
         == Ok(("<" + tag) + (" " + SerializeNode(prop).value) + ">" + SerializeNode(child).value + ("</" + tag + ">"))
  {
    assert [prop][0] == prop && [child][0] == child;
    assert Renderable(Element(tag, [prop], false, [child]));
    Single(prop);
    Single(child);
    ElementOfOnes(tag, [prop], [child], SerializeNode(prop).value, SerializeNode(child).value);
  }

  /** An open element whose props and children each serialize to one text. */
  lemma ElementOfOnes(tag: string, props: seq<Node>, children: seq<Node>, p: string, c: string)
    requires Renderable(Element(tag, props, false, children))
    requires SerializeAll(props) == Ok([p]) && SerializeAll(children) == Ok([c])
    ensures SerializeNode(Element(tag, props, false, children)) == Ok(("<" + tag) + (" " + p) + ">" + c + ("</" + tag + ">"))
  {
    ElementLayout(tag, props, false, children);
    assert Prefixed(" ", [p]) == [" " + p];
    JoinSingle(" " + p, "");
    JoinSingle(c, "");
    var text := SerializeNode(Element(tag, props, false, children)).value;
    assert text == "<" + tag + (" " + p) + ">" + c + "</" + tag + ">";
    var open := "<" + tag + (" " + p) + ">" + c;
    Assoc(open, "</" + tag, ">");
    Assoc(open, "</", tag);
    Assoc("<" + tag, " " + p, ">");
  }

  /** `<div v-if="test">hello</div>`: an open element with a directive and
      a text child. */
  lemma ConditionalElement()
    ensures SerializeNode(Element("div", [Directive("if", None, [], Some(Simple("test", false)))], false, [Text("hello")]))
         == Ok("<div" + " v-if=\"test\"" + ">" + "hello" + "</div>")
  {
    var dir := Directive("if", None, [], Some(Simple("test", false)));
    assert SerializeExpr(Simple("test", false)) == Ok("test");
    assert SerializeExpPart(Some(Simple("test", false))) == Ok("=\"test\"") by {
      assert "=\"" + "test" + "\"" == "=\"test\"";
    }
    assert SerializeNode(dir) == Ok("v-if=\"test\"") by {
      assert "v-" + "if" + "" + "" + "=\"test\"" == "v-if=\"test\"";
    }
    OnePropOneChild("div", dir, Text("hello"));
    assert "<" + "div" == "<div";
    assert " " + "v-if=\"test\"" == " v-if=\"test\"";
    assert "</" + "div" + ">" == "</div>";
  }

  /** `<template lang="pug"></template>`: the root keeps the attribute text
      of its opening tag. */
  lemma TemplateWithAttributes()
    ensures Stringify(TemplateOnly(Root(" lang=\"pug\"", []))) == Ok("<template lang=\"pug\">" + "</template>")
  {
    assert SerializeAll([]) == Ok([]);
    TemplateOnlyText(Root(" lang=\"pug\"", []));
    assert "<template" + " lang=\"pug\"" + ">" == "<template lang=\"pug\">";
    assert "<template lang=\"pug\">" + "" == "<template lang=\"pug\">";
  }

  /** `<style lang="postcss" scoped>`: `lang` and `scoped` come from the
      block's fields, so their entries in the attribute map are not repeated. */
  lemma ScopedStyle()
    ensures SerializeStyle(StyleBlock("postcss", true, [("lang", "postcss"), ("scoped", "true")], ".test { me: 1px }"))
         == "<style" + " lang=\"postcss\"" + " scoped" + ">" + ".test { me: 1px }" + "</style>"
  {
    var attrs := [("lang", "postcss"), ("scoped", "true")];
    assert Without(attrs, {"lang", "scoped"}) == [] by {
      assert attrs[1..][1..] == [];
    }
    ScopedPostcss(attrs, ".test { me: 1px }");
  }

  /** A scoped `postcss` style whose only entries are `lang` and `scoped`. */
  lemma ScopedPostcss(attrs: Attrs, content: string)
    requires Without(attrs, {"lang", "scoped"}) == []
    ensures SerializeStyle(StyleBlock("postcss", true, attrs, content))
         == "<style" + " lang=\"postcss\"" + " scoped" + ">" + content + "</style>"
  {
    assert "<" + "style" + (" " + AttrText("lang", Some("postcss"))) + (" " + AttrText("scoped", None)) + ">"
        == "<style" + " lang=\"postcss\"" + " scoped" + ">" by {
      assert " " + AttrText("lang", Some("postcss")) == " lang=\"postcss\"";
      assert " " + AttrText("scoped", None) == " scoped";
      assert "<" + "style" == "<style";
    }
    assert "</" + "style" + ">" == "</style>";
    NoRest("style", "scoped", "postcss", true, attrs, content, "<style" + " lang=\"postcss\"" + " scoped" + ">");
  }

  /** `<script lang="ts">`. */
  lemma TypedScript()
    ensures SerializeScript(ScriptBlock("ts", false, [("lang", "ts")], "console.log('Here!')"))
         == "<script" + " lang=\"ts\"" + ">" + "console.log('Here!')" + "</script>"
  {
    var attrs := [("lang", "ts")];
    assert Without(attrs, {"lang", "setup"}) == [] by {
      assert attrs[1..] == [];
    }
    TsScript(false, attrs, "console.log('Here!')");
  }

  /** `<script lang="ts" setup>`. */
  lemma SetupScript()
    ensures SerializeScript(ScriptBlock("ts", true, [("lang", "ts"), ("setup", "true")], "console.log('Here!')"))
         == "<script" + " lang=\"ts\"" + " setup" + ">" + "console.log('Here!')" + "</script>"
  {
    var attrs := [("lang", "ts"), ("setup", "true")];
    assert Without(attrs, {"lang", "setup"}) == [] by {
      assert attrs[1..][1..] == [];
    }
    TsScript(true, attrs, "console.log('Here!')");
  }

  /** A `ts` script whose only entries are `lang` and `setup`. */
  lemma TsScript(setup: bool, attrs: Attrs, content: string)
    requires Without(attrs, {"lang", "setup"}) == []
    ensures SerializeScript(ScriptBlock("ts", setup, attrs, content))
         == "<script" + " lang=\"ts\"" + (if setup then " setup" else "") + ">" + content + "</script>"
  {
    assert " " + AttrText("lang", Some("ts")) == " lang=\"ts\"";
    assert " " + AttrText("setup", None) == " setup";
    assert "<" + "script" == "<script";
    assert "</" + "script" + ">" == "</script>";
    NoRest("script", "setup", "ts", setup, attrs, content, "<script" + " lang=\"ts\"" + (if setup then " setup" else "") + ">");
  }

  /** `<i18n x="1">`: a custom block renders every entry of its map. */
  lemma I18nBlock()
    ensures SerializeCustomBlock(CustomBlock("i18n", [("x", "1")], "{ \"de\": { \"hello\": \"Guten Tag!\" } }"))
         == "<i18n x=\"1\">" + "{ \"de\": { \"hello\": \"Guten Tag!\" } }" + "</i18n>"
  {
    var attrs := [("x", "1")];
    assert EntryTexts(attrs) == ["x=\"1\""] by {
      assert AttrText("x", Some("1")) == "x=\"1\"";
    }
    assert RestText(attrs) == " x=\"1\"";
    assert "<" + "i18n" + " x=\"1\"" + ">" == "<i18n x=\"1\">";
    assert "</" + "i18n" + ">" == "</i18n>";
    var front := "<i18n x=\"1\">" + "{ \"de\": { \"hello\": \"Guten Tag!\" } }";
    Assoc(front, "</" + "i18n", ">");
    Assoc(front, "</", "i18n");
  }

  /** A document with a template and one style is the template's text
      followed by the style's. */
  lemma TemplateThenStyle(root: Node, style: StyleBlock)
    requires Renderable(root)
    ensures Stringify(Descriptor(Some(TemplateBlock(Some(root))), None, None, [style], []))
         == Ok(SerializeNode(root).value + SerializeStyle(style))
  {
    var d := Descriptor(Some(TemplateBlock(Some(root))), None, None, [style], []);
    var t, st := SerializeNode(root).value, SerializeStyle(style);
    calc {
      Stringify(d);
    ==  { StringifyLayout(d); }
      Ok(TemplatePart(d) + ScriptPart(None) + ScriptPart(None) + SerializeStyles([style]) + BlocksPart(d));
    ==  { assert SerializeCustomBlocks([]) == []; }
      Ok(t + "" + "" + st + "");
    ==  { assert t + "" == t; assert t + st + "" == t + st; }
      Ok(t + st);
    }
  }

  /** A template with attributes followed by a scoped style: the parts are
      written back to back. */
  lemma TemplateAndStyle()
    ensures Stringify(Descriptor(Some(TemplateBlock(Some(Root(" lang=\"pug\" x=\"1\"", [])))), None, None,
                                 [StyleBlock("postcss", true, [("lang", "postcss"), ("scoped", "true")], ".test { me: 1px }")], []))
         == Ok("<template lang=\"pug\" x=\"1\">" + "</template>"
               + ("<style" + " lang=\"postcss\"" + " scoped" + ">" + ".test { me: 1px }" + "</style>"))
  {
    var root := Root(" lang=\"pug\" x=\"1\"", []);
    assert SerializeAll([]) == Ok([]);
    assert SerializeNode(root) == Ok("<template lang=\"pug\" x=\"1\">" + "</template>") by {
      var open := "<template" + " lang=\"pug\" x=\"1\"" + ">";
      assert open == "<template lang=\"pug\" x=\"1\">";
      assert Join([], "") == "";
      assert open + "" == open;
    }
    TemplateThenStyle(root, StyleBlock("postcss", true, [("lang", "postcss"), ("scoped", "true")], ".test { me: 1px }"));
    ScopedStyle();
  }
}
