/** Properties of the markup-tree serializer: fail-closed dispatch, the
    layout of elements and of the root, and the leaf kinds. */
module TemplateLaws {

  import opened Wrappers
  import opened Strings
  import opened Template

  /** Every node of the tree, visited or not, is of a handled kind and every
      directive argument is a simple expression. */
  predicate Handled(n: Node)
    decreases n
  {
    match n
    case Root(_, children) =>
      forall i :: 0 <= i < |children| ==> Handled(children[i])
    case Element(_, props, _, children) =>
      && (forall i :: 0 <= i < |props| ==> Handled(props[i]))
      && (forall i :: 0 <= i < |children| ==> Handled(children[i]))
    case Text(_) => true
    case Comment(_) => true
    case Expression(e) => e.Simple?
    case Interpolation(e) => e.Simple?
    case Attribute(_, value) => value.None? || Handled(value.value)
    case Directive(_, arg, _, exp) =>
      (arg.None? || arg.value.Simple?) && (exp.None? || exp.value.Simple?)
    case Other(_) => false
  }

  /** A tree free of unhandled kinds always serializes. */
  lemma {:induction false} HandledTreesSerialize(n: Node)
    requires Handled(n)
    ensures SerializeNode(n).Ok?
    decreases n
  {
    match n
    case Root(_, children) =>
      forall i | 0 <= i < |children| ensures Renderable(children[i]) {
        HandledTreesSerialize(children[i]);
      }
    case Element(_, props, _, children) =>
      forall i | 0 <= i < |props| ensures Renderable(props[i]) {
        HandledTreesSerialize(props[i]);
      }
      forall i | 0 <= i < |children| ensures Renderable(children[i]) {
        HandledTreesSerialize(children[i]);
      }
    case Attribute(_, value) =>
      if value.Some? {
        HandledTreesSerialize(value.value);
      }
    case _ =>
  }

  /** An unhandled kind met by the traversal fails the whole serialization,
      however deep it sits: no partial text is produced. */
  lemma UnknownKindFailsClosed(n: Node)
    requires !Renderable(n)
    ensures SerializeNode(n).Err?
  {
  }

  /** Serializing a list is a left-to-right map: the texts of two lists
      concatenate, and the first failure in order is the one reported. */
  lemma {:induction false} SerializeAllAppend(a: seq<Node>, b: seq<Node>)
    ensures SerializeAll(a).Err? ==> SerializeAll(a + b) == Err(SerializeAll(a).error)
    ensures SerializeAll(a).Ok? && SerializeAll(b).Err? ==> SerializeAll(a + b) == Err(SerializeAll(b).error)
    ensures SerializeAll(a).Ok? && SerializeAll(b).Ok? ==>
      SerializeAll(a + b) == Ok(SerializeAll(a).value + SerializeAll(b).value)
    decreases |a|
  {
    if |a| == 0 {
      assert a + b == b;
      assert SerializeAll(a) == Ok([]);
      if SerializeAll(b).Ok? {
        assert [] + SerializeAll(b).value == SerializeAll(b).value;
      }
    } else {
      var ab := a + b;
      assert ab[0] == a[0];
      assert ab[1..] == a[1..] + b;
      var head := SerializeNode(a[0]);
      if head.Ok? {
        SerializeAllAppend(a[1..], b);
        var rest, whole := SerializeAll(a[1..]), SerializeAll(ab[1..]);
        if rest.Ok? && SerializeAll(b).Ok? {
          var y := SerializeAll(b).value;
          assert SerializeAll(ab) == Ok([head.value] + (rest.value + y));
          assert [head.value] + (rest.value + y) == ([head.value] + rest.value) + y;
        }
      }
    }
  }

  /** The children's text of a concatenated child list is the concatenation
      of the two lists' texts. */
  lemma ChildrenTextAppend(a: seq<Node>, b: seq<Node>)
    requires SerializeAll(a).Ok? && SerializeAll(b).Ok?
    ensures SerializeAll(a + b).Ok?
    ensures Join(SerializeAll(a + b).value, "")
         == Join(SerializeAll(a).value, "") + Join(SerializeAll(b).value, "")
  {
    SerializeAllAppend(a, b);
    JoinConcat(SerializeAll(a).value, SerializeAll(b).value);
  }

  /** The text of a renderable element: its tag, then each prop's own text
      preceded by exactly one space; then ` />` when self-closing, whatever
      the children; otherwise `>`, the children's own texts back to back, and
      an explicit close tag, even when there are no children. */
  lemma ElementLayout(tag: string, props: seq<Node>, isSelfClosing: bool, children: seq<Node>)
    requires Renderable(Element(tag, props, isSelfClosing, children))
    ensures SerializeAll(props).Ok?
    ensures var r := SerializeNode(Element(tag, props, isSelfClosing, children)).value;
            var open := "<" + tag + Join(Prefixed(" ", SerializeAll(props).value), "");
            if isSelfClosing then r == open + " />"
            else
              && SerializeAll(children).Ok?
              && r == open + ">" + Join(SerializeAll(children).value, "") + "</" + tag + ">"
  {
    var ps := SerializeAll(props).value;
    if |props| > 0 {
      LeadingSeparator(ps, " ");
    }
  }

  /** A self-closing element never looks at its children. */
  lemma SelfClosingIgnoresChildren(tag: string, props: seq<Node>, c1: seq<Node>, c2: seq<Node>)
    ensures SerializeNode(Element(tag, props, true, c1)) == SerializeNode(Element(tag, props, true, c2))
  {
  }

  /** So even an unhandled kind under a self-closing element goes unnoticed. */
  lemma SelfClosingHidesUnknownChild()
    ensures SerializeNode(Element("div", [], true, [Other(9)])) == Ok("<div />")
  {
    assert SerializeAll([]) == Ok([]);
    assert "<" + "div" + "" + " />" == "<div />";
  }

  /** Appending children to an element that is not self-closing inserts
      their texts after the old children's and just before the close tag;
      the open tag and the old children's texts are unchanged. */
  lemma AppendedChildrenText(tag: string, props: seq<Node>, c1: seq<Node>, c2: seq<Node>)
    requires Renderable(Element(tag, props, false, c1))
    requires SerializeAll(c2).Ok?
    ensures SerializeAll(props).Ok? && SerializeAll(c1).Ok?
    ensures SerializeNode(Element(tag, props, false, c1 + c2)).Ok?
    ensures SerializeNode(Element(tag, props, false, c1 + c2)).value
         == "<" + tag + (if |props| > 0 then " " + Join(SerializeAll(props).value, " ") else "") + ">"
            + (Join(SerializeAll(c1).value, "") + Join(SerializeAll(c2).value, "")) + "</" + tag + ">"
  {
    ChildrenTextAppend(c1, c2);
  }

  /** The text the pattern `<template(.*?)>` captures from the start of a
      serialized document: everything after `<template` up to the first `>`. */
  function CapturedRootAttrs(s: string): Option<string>
  {
    if |s| < 9 || s[..9] != "<template" then None
    else Some(s[9..9 + Span(s[9..], {'>'})])
  }

  /** The root renders as a `template` tag carrying the captured attribute
      text verbatim, the children's own texts back to back, and the close
      tag; reading the attributes back from that text yields them again
      whenever they contain no `>`. */
  lemma RootLayout(attrs: string, children: seq<Node>)
    requires Renderable(Root(attrs, children))
    ensures SerializeAll(children).Ok?
    ensures var r := SerializeNode(Root(attrs, children)).value;
            r == "<template" + attrs + ">" + Join(SerializeAll(children).value, "") + "</template>"
    ensures NoneOf(attrs, {'>'}) ==> CapturedRootAttrs(SerializeNode(Root(attrs, children)).value) == Some(attrs)
  {
    var rest := ">" + Join(SerializeAll(children).value, "") + "</template>";
    var body := Join(SerializeAll(children).value, "");
    assert "<template" + attrs + ">" + body + "</template>" == "<template" + (attrs + (">" + body + "</template>"));
    if NoneOf(attrs, {'>'}) {
      CaptureOf(attrs, rest);
    }
  }

  /** The capture stops at the first `>` after the attributes. */
  lemma CaptureOf(attrs: string, rest: string)
    requires NoneOf(attrs, {'>'})
    requires |rest| > 0 && rest[0] == '>'
    ensures CapturedRootAttrs("<template" + (attrs + rest)) == Some(attrs)
  {
    var r := "<template" + (attrs + rest);
    assert r[..9] == "<template";
    assert r[9..] == attrs + rest;
    SpanOf(attrs, rest, {'>'});
    assert r[9..9 + |attrs|] == attrs;
  }

  /** The leaf kinds: text verbatim, a comment between comment delimiters, a
      simple expression as its content whether static or dynamic, an
      interpolation between spaced double braces; a compound expression in
      either place is an unknown node type. */
  lemma LeafKinds(content: string, isStatic: bool, parts: seq<Expr>)
    ensures SerializeNode(Text(content)) == Ok(content)
    ensures SerializeNode(Comment(content)) == Ok("<!--" + content + "-->")
    ensures SerializeNode(Expression(Simple(content, isStatic))) == Ok(content)
    ensures SerializeNode(Interpolation(Simple(content, isStatic))) == Ok("{{ " + content + " }}")
    ensures SerializeNode(Expression(Compound(parts))) == Err(UnknownNodeType)
    ensures SerializeNode(Interpolation(Compound(parts))) == Err(UnknownNodeType)
  {
  }

  /** A directive's argument is checked before its expression, so a
      non-simple argument is reported as an unknown argument type even when
      the expression is not handled either. */
  lemma DirectiveArgumentErrors(name: string, parts: seq<Expr>, modifiers: seq<string>, exp: Option<Expr>)
    ensures SerializeNode(Directive(name, Some(Compound(parts)), modifiers, exp)) == Err(UnknownArgType)
  {
  }
}
