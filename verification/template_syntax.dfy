/** Readers for the attribute and directive text the serializer writes, and
    the round trips that show the text keeps every distinction the tree
    makes: valued or valueless, static or dynamic argument, each modifier,
    present or absent expression. */
module TemplateSyntax {

  import opened Wrappers
  import opened Strings
  import opened Template

  /** A directive as read back from text: argument text with its static
      flag, modifiers, and bound expression text. */
  datatype DirectiveParts = DirectiveParts(
    name: string,
    arg: Option<(string, bool)>,
    modifiers: seq<string>,
    exp: Option<string>)

  /** Reads `name` or `name="value"`: the name runs to the first `=`, the
      value is everything between the quotes that follow it. */
  function DecodeAttribute(s: string): Option<(string, Option<string>)>
  {
    var k := Span(s, {'='});
    if k == |s| then Some((s, None))
    else
      var u := s[k + 1..];
      if |u| >= 2 && u[0] == '"' && u[|u| - 1] == '"' then Some((s[..k], Some(u[1..|u| - 1])))
      else None
  }

  /** Reads an optional `:arg` or `:[arg]` off the front of `s`, returning it
      with its static flag and the text after it. */
  function DecodeArgPart(s: string): Option<(Option<(string, bool)>, string)>
  {
    if |s| == 0 || s[0] != ':' then Some((None, s))
    else
      var t := s[1..];
      if |t| > 0 && t[0] == '[' then
        var u := t[1..];
        var j := Span(u, {']'});
        if j == |u| then None else Some((Some((u[..j], false)), u[j + 1..]))
      else
        var j := Span(t, {'.', '='});
        Some((Some((t[..j], true)), t[j..]))
  }

  /** Reads an optional `.mod1.mod2` off the front of `s`. */
  function DecodeModifiers(s: string): (seq<string>, string)
  {
    if |s| == 0 || s[0] != '.' then ([], s)
    else
      var t := s[1..];
      var j := Span(t, {'='});
      (Split(t[..j], '.'), t[j..])
  }

  /** Reads the rest of a directive: nothing, or `="exp"`. */
  function DecodeExpPart(s: string): Option<Option<string>>
  {
    if |s| == 0 then Some(None)
    else if |s| >= 3 && s[0] == '=' && s[1] == '"' && s[|s| - 1] == '"' then Some(Some(s[2..|s| - 1]))
    else None
  }

  /** Reads `v-name[:arg][.modifiers][="exp"]`. */
  function DecodeDirective(s: string): Option<DirectiveParts>
  {
    if |s| < 2 || s[..2] != "v-" then None
    else
      var t := s[2..];
      var k := Span(t, {':', '.', '='});
      var argPart :- DecodeArgPart(t[k..]);
      var modifierPart := DecodeModifiers(argPart.1);
      var exp :- DecodeExpPart(modifierPart.1);
      Some(DirectiveParts(t[..k], argPart.0, modifierPart.0, exp))
  }

  /** The value node an attribute carries for an optional text value. */
  function TextValue(value: Option<string>): Option<Node>
  {
    if value.None? then None else Some(Text(value.value))
  }

  /** A valueless attribute renders as its bare name and so holds no `=`
      unless its name does; a valued one renders double-quoted; reading
      either back yields the name and the value. */
  lemma AttributeRoundTrip(name: string, value: Option<string>)
    requires NoneOf(name, {'='})
    ensures SerializeNode(Attribute(name, TextValue(value))).Ok?
    ensures DecodeAttribute(SerializeNode(Attribute(name, TextValue(value))).value) == Some((name, value))
    ensures value.None? ==> NoneOf(SerializeNode(Attribute(name, TextValue(value))).value, {'='})
  {
    if value.None? {
      BareAttributeText(name);
    } else {
      assert SerializeNode(Text(value.value)) == Ok(value.value);
      var v := value.value;
      assert AttrText(name, Some(v)) == name + ("=\"" + v + "\"") by {
        Assoc(name, "=\"" + v, "\"");
        Assoc(name, "=\"", v);
      }
      ValuedAttributeText(name, value.value);
    }
  }

  lemma BareAttributeText(name: string)
    requires NoneOf(name, {'='})
    ensures DecodeAttribute(name) == Some((name, None))
  {
    SpanOf(name, [], {'='});
    assert name + [] == name;
  }

  lemma ValuedAttributeText(name: string, v: string)
    requires NoneOf(name, {'='})
    ensures DecodeAttribute(name + ("=\"" + v + "\"")) == Some((name, Some(v)))
  {
    var r := name + ("=\"" + v + "\"");
    SpanOf(name, "=\"" + v + "\"", {'='});
    assert r[..|name|] == name;
    assert r[|name| + 1..] == "\"" + v + "\"";
  }

  /** A directive argument that reads back unambiguously: a static one
      without `.` or `=` that does not open with `[`, a dynamic one
      without `]`. */
  predicate ReadableArg(e: Expr)
  {
    match e
    case Simple(c, isStatic) =>
      if isStatic then NoneOf(c, {'.', '='}) && (c == [] || c[0] != '[')
      else NoneOf(c, {']'})
    case Compound(_) => false
  }

  /** A directive whose text reads back unambiguously. */
  predicate ReadableDirective(name: string, arg: Option<Expr>, modifiers: seq<string>, exp: Option<Expr>)
  {
    && NoneOf(name, {':', '.', '='})
    && (arg.None? || ReadableArg(arg.value))
    && (forall i :: 0 <= i < |modifiers| ==> NoneOf(modifiers[i], {'.', '='}))
    && (exp.None? || exp.value.Simple?)
  }

  /** The argument text and static flag of an optional simple expression. */
  function ArgInfo(arg: Option<Expr>): Option<(string, bool)>
    requires arg.None? || arg.value.Simple?
  {
    if arg.None? then None else Some((arg.value.content, arg.value.isStatic))
  }

  /** The text of an optional simple expression. */
  function ExpInfo(exp: Option<Expr>): Option<string>
    requires exp.None? || exp.value.Simple?
  {
    if exp.None? then None else Some(exp.value.content)
  }

  lemma StaticArgRoundTrip(c: string, rest: string)
    requires NoneOf(c, {'.', '='}) && (c == [] || c[0] != '[')
    requires rest == [] || rest[0] in {'.', '='}
    ensures DecodeArgPart(":" + c + rest) == Some((Some((c, true)), rest))
  {
    var s := ":" + c + rest;
    assert s[1..] == c + rest;
    SpanOf(c, rest, {'.', '='});
    assert (c + rest)[..|c|] == c;
    assert (c + rest)[|c|..] == rest;
    if |c| == 0 {
      assert c + rest == rest;
    } else {
      assert (c + rest)[0] == c[0];
    }
  }

  lemma DynamicArgRoundTrip(c: string, rest: string)
    requires NoneOf(c, {']'})
    ensures DecodeArgPart(":" + ("[" + c + "]") + rest) == Some((Some((c, false)), rest))
  {
    var s := ":" + ("[" + c + "]") + rest;
    assert s[1..] == "[" + (c + ("]" + rest));
    assert s[1..][1..] == c + ("]" + rest);
    SpanOf(c, "]" + rest, {']'});
    assert (c + ("]" + rest))[..|c|] == c;
    assert (c + ("]" + rest))[|c| + 1..] == rest;
  }

  lemma ArgPartRoundTrip(arg: Option<Expr>, rest: string)
    requires arg.None? || ReadableArg(arg.value)
    requires rest == [] || rest[0] in {'.', '='}
    ensures SerializeArgPart(arg).Ok?
    ensures DecodeArgPart(SerializeArgPart(arg).value + rest) == Some((ArgInfo(arg), rest))
  {
    if arg.Some? {
      var c := arg.value.content;
      if arg.value.isStatic {
        StaticArgRoundTrip(c, rest);
      } else {
        DynamicArgRoundTrip(c, rest);
      }
    } else {
      assert SerializeArgPart(arg).value + rest == rest;
    }
  }

  lemma ModifiersRoundTrip(modifiers: seq<string>, rest: string)
    requires forall i :: 0 <= i < |modifiers| ==> NoneOf(modifiers[i], {'.', '='})
    requires rest == [] || rest[0] == '='
    ensures DecodeModifiers(ModifiersText(modifiers) + rest) == (modifiers, rest)
  {
    if |modifiers| == 0 {
      assert ModifiersText(modifiers) + rest == rest;
    } else {
      var joined := Join(modifiers, ".");
      forall i | 0 <= i < |modifiers| ensures NoneOf(modifiers[i], {'='}) {
        assert NoneOf(modifiers[i], {'.', '='});
      }
      NoneOfJoin(modifiers, ".", {'='});
      assert ModifiersText(modifiers) + rest == "." + (joined + rest);
      SpanOf(joined, rest, {'='});
      assert (joined + rest)[..|joined|] == joined;
      assert (joined + rest)[|joined|..] == rest;
      forall i | 0 <= i < |modifiers| ensures NoneOf(modifiers[i], {'.'}) {
        assert NoneOf(modifiers[i], {'.', '='});
      }
      SplitJoin(modifiers, '.');
    }
  }

  lemma ExpPartRoundTrip(exp: Option<Expr>)
    requires exp.None? || exp.value.Simple?
    ensures SerializeExpPart(exp).Ok?
    ensures DecodeExpPart(SerializeExpPart(exp).value) == Some(ExpInfo(exp))
  {
  }

  /** A directive always renders with the explicit `v-` prefix; its
      argument bare when static and bracketed when dynamic, its modifiers
      each after a `.`, its expression double-quoted after `=`; reading the
      text back recovers every one of them. */
  lemma DirectiveRoundTrip(name: string, arg: Option<Expr>, modifiers: seq<string>, exp: Option<Expr>)
    requires ReadableDirective(name, arg, modifiers, exp)
    ensures SerializeNode(Directive(name, arg, modifiers, exp)).Ok?
    ensures DecodeDirective(SerializeNode(Directive(name, arg, modifiers, exp)).value)
         == Some(DirectiveParts(name, ArgInfo(arg), modifiers, ExpInfo(exp)))
  {
    var argText := SerializeArgPart(arg).value;
    var modifiersText := ModifiersText(modifiers);
    var expText := SerializeExpPart(exp).value;
    var r := SerializeNode(Directive(name, arg, modifiers, exp)).value;
    var afterName := argText + (modifiersText + expText);
    DirectiveText(name, argText, modifiersText, expText, r);
    NameRoundTrip(name, afterName, r);
    ArgPartRoundTrip(arg, modifiersText + expText);
    ModifiersRoundTrip(modifiers, expText);
    ExpPartRoundTrip(exp);
    DecodeDirectiveSteps(r, name, ArgInfo(arg), modifiersText + expText, modifiers, expText, ExpInfo(exp));
  }

  /** A directive's text grouped from the right, the way the reader consumes it. */
  lemma DirectiveText(name: string, argText: string, modifiersText: string, expText: string, r: string)
    requires r == "v-" + name + argText + modifiersText + expText
    ensures r == "v-" + (name + (argText + (modifiersText + expText)))
  {
  }

  /** The directive reader's steps, each taken on its own. */
  lemma DecodeDirectiveSteps(s: string, name: string, arg: Option<(string, bool)>, argRest: string,
                             modifiers: seq<string>, modifiersRest: string, exp: Option<string>)
    requires |s| >= 2 && s[..2] == "v-"
    requires Span(s[2..], {':', '.', '='}) == |name|
    requires s[2..][..|name|] == name
    requires DecodeArgPart(s[2..][|name|..]) == Some((arg, argRest))
    requires DecodeModifiers(argRest) == (modifiers, modifiersRest)
    requires DecodeExpPart(modifiersRest) == Some(exp)
    ensures DecodeDirective(s) == Some(DirectiveParts(name, arg, modifiers, exp))
  {
  }

  lemma NameRoundTrip(name: string, afterName: string, r: string)
    requires NoneOf(name, {':', '.', '='})
    requires afterName == [] || afterName[0] in {':', '.', '='}
    requires r == "v-" + (name + afterName)
    ensures |r| >= 2 && r[..2] == "v-"
    ensures Span(r[2..], {':', '.', '='}) == |name|
    ensures r[2..][..|name|] == name
    ensures r[2..][|name|..] == afterName
  {
    assert r[2..] == name + afterName;
    SpanOf(name, afterName, {':', '.', '='});
  }
}
