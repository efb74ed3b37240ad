/** The markup-tree serializer: `serializeTemplateItem` and its per-kind
    helpers in src/lib/serializer.ts. */
module Template {

  import opened Wrappers
  import opened Strings

  /** An expression node. `Compound` stands for the parser's compound
      expressions, which the serializer's dispatch does not handle. */
  datatype Expr = Simple(content: string, isStatic: bool) | Compound(parts: seq<Expr>)

  /** A node of the parsed template tree: the eight kinds the serializer
      handles, and `Other` for every kind it does not (if, for, text calls, ...). */
  datatype Node =
    | Root(attrs: string, children: seq<Node>)
    | Element(tag: string, props: seq<Node>, isSelfClosing: bool, children: seq<Node>)
    | Text(content: string)
    | Comment(content: string)
    | Expression(expr: Expr)
    | Interpolation(inner: Expr)
    | Attribute(name: string, value: Option<Node>)
    | Directive(name: string, arg: Option<Expr>, modifiers: seq<string>, exp: Option<Expr>)
    | Other(kind: nat)

  /** The two exceptions the serializer throws. */
  datatype Error = UnknownNodeType | UnknownArgType

  /** Which trees serialize: every node the serializer visits is of a handled
      kind, and every directive argument is a simple expression. The children
      of a self-closing element are never visited. */
  predicate Renderable(n: Node)
    decreases n
  {
    match n
    case Root(_, children) =>
      forall i :: 0 <= i < |children| ==> Renderable(children[i])
    case Element(_, props, isSelfClosing, children) =>
      && (forall i :: 0 <= i < |props| ==> Renderable(props[i]))
      && (isSelfClosing || forall i :: 0 <= i < |children| ==> Renderable(children[i]))
    case Text(_) => true
    case Comment(_) => true
    case Expression(e) => e.Simple?
    case Interpolation(e) => e.Simple?
    case Attribute(_, value) => value.None? || Renderable(value.value)
    case Directive(_, arg, _, exp) =>
      (arg.None? || arg.value.Simple?) && (exp.None? || exp.value.Simple?)
    case Other(_) => false
  }

  /** An expression reached through the node dispatch: a simple expression
      renders its content whether static or not; a compound one is not a
      handled kind. */
  function SerializeExpr(e: Expr): (r: Result<string, Error>)
    ensures r.Ok? <==> e.Simple?
    ensures r.Err? ==> r.error == UnknownNodeType
  {
    match e
    case Simple(content, _) => Ok(content)
    case Compound(_) => Err(UnknownNodeType)
  }

  /** A directive argument: bare when static, bracketed when dynamic; any
      other expression kind is an unknown argument type. */
  function SerializeArg(e: Expr): (r: Result<string, Error>)
    ensures r.Ok? <==> e.Simple?
    ensures r.Err? ==> r.error == UnknownArgType
  {
    match e
    case Simple(_, isStatic) =>
      var text := SerializeExpr(e).value;
      Ok(if isStatic then text else "[" + text + "]")
    case Compound(_) => Err(UnknownArgType)
  }

  /** `serializeTemplateItem`: the text of one node, or the exception that
      aborts the whole serialization. */
  function SerializeNode(n: Node): (r: Result<string, Error>)
    ensures r.Ok? <==> Renderable(n)
    decreases n
  {
    match n
    case Root(attrs, children) =>
      var texts :- SerializeAll(children);
      Ok("<template" + attrs + ">" + Join(texts, "") + "</template>")
    case Element(tag, props, isSelfClosing, children) =>
      var propTexts :- SerializeAll(props);
      var propsText := if |props| > 0 then " " + Join(propTexts, " ") else "";
      if isSelfClosing then
        Ok("<" + tag + propsText + " />")
      else
        var texts :- SerializeAll(children);
        Ok("<" + tag + propsText + ">" + Join(texts, "") + "</" + tag + ">")
    case Text(content) => Ok(content)
    case Comment(content) => Ok("<!--" + content + "-->")
    case Expression(e) => SerializeExpr(e)
    case Interpolation(e) =>
      var text :- SerializeExpr(e);
      Ok("{{ " + text + " }}")
    case Attribute(name, value) =>
      if value.None? then Ok(AttrText(name, None))
      else
        var text :- SerializeNode(value.value);
        Ok(AttrText(name, Some(text)))
    case Directive(name, arg, modifiers, exp) =>
      var argText :- SerializeArgPart(arg);
      var expText :- SerializeExpPart(exp);
      Ok("v-" + name + argText + ModifiersText(modifiers) + expText)
    case Other(_) => Err(UnknownNodeType)
  }

  /** The `:arg` part of a directive, empty when there is no argument. */
  function SerializeArgPart(arg: Option<Expr>): (r: Result<string, Error>)
    ensures r.Ok? <==> arg.None? || arg.value.Simple?
  {
    if arg.None? then Ok("")
    else
      var text :- SerializeArg(arg.value);
      Ok(":" + text)
  }

  /** The `.mod1.mod2` part of a directive, empty when there are no modifiers. */
  function ModifiersText(modifiers: seq<string>): (r: string)
    ensures r == Join(Prefixed(".", modifiers), "")
  {
    if |modifiers| > 0 then
      LeadingSeparator(modifiers, ".");
      "." + Join(modifiers, ".")
    else ""
  }

  /** The `="exp"` part of a directive, empty when there is no expression. */
  function SerializeExpPart(exp: Option<Expr>): (r: Result<string, Error>)
    ensures r.Ok? <==> exp.None? || exp.value.Simple?
  {
    if exp.None? then Ok("")
    else
      var text :- SerializeExpr(exp.value);
      Ok("=\"" + text + "\"")
  }

  /** `nodes.map(serializeTemplateItem)`: every node serialized in order; the
      first exception aborts the whole map. */
  function SerializeAll(ns: seq<Node>): (r: Result<seq<string>, Error>)
    ensures r.Ok? <==> forall i :: 0 <= i < |ns| ==> Renderable(ns[i])
    ensures r.Ok? ==> |r.value| == |ns|
    ensures r.Ok? ==> forall i :: 0 <= i < |ns| ==> SerializeNode(ns[i]) == Ok(r.value[i])
    decreases ns
  {
    if |ns| == 0 then Ok([])
    else
      var head :- SerializeNode(ns[0]);
      var tail :- SerializeAll(ns[1..]);
      Ok([head] + tail)
  }
}
