/** A reader for section text, and the properties of the section
    serializers stated through it: which attributes a section's open tag
    carries, in which order, and that none is written twice. */
module SectionSyntax {

  import opened Wrappers
  import opened Strings
  import opened Sections

  /** A section as read back from text. */
  datatype Section = Section(tag: string, attrs: seq<Item>, content: string)

  /** Reads one ` name` or ` name="value"` item, returning it with the text
      after it. */
  function DecodeItem(s: string): (r: Option<(Item, string)>)
    requires |s| > 0 && s[0] == ' '
    ensures r.Some? ==> |r.value.1| < |s|
  {
    var t := s[1..];
    var k := Span(t, {' ', '=', '>'});
    var u := t[k..];
    if |u| > 0 && u[0] == '=' then
      if |u| < 2 || u[1] != '"' then None
      else
        var w := u[2..];
        var j := Span(w, {'"'});
        if j == |w| then None else Some(((t[..k], Some(w[..j])), w[j + 1..]))
    else Some(((t[..k], None), u))
  }

  /** Reads items up to the closing `>`, returning them with the text after
      the `>`. */
  function DecodeAttrList(s: string): Option<(seq<Item>, string)>
    decreases |s|
  {
    if |s| == 0 then None
    else if s[0] == '>' then Some(([], s[1..]))
    else if s[0] != ' ' then None
    else
      var item :- DecodeItem(s);
      var more :- DecodeAttrList(item.1);
      Some(([item.0] + more.0, more.1))
  }

  /** Reads `<tag items>content</tag>`. */
  function DecodeSection(s: string): Option<Section>
  {
    if |s| == 0 || s[0] != '<' then None
    else
      var t := s[1..];
      var k := Span(t, {' ', '>'});
      var items :- DecodeAttrList(t[k..]);
      var close := "</" + t[..k] + ">";
      var body := items.1;
      if |body| >= |close| && body[|body| - |close|..] == close then
        Some(Section(t[..k], items.0, body[..|body| - |close|]))
      else None
  }

  /** An item that reads back: its name free of space, `=` and `>`, its value
      free of double quotes. */
  predicate ReadableItem(item: Item)
  {
    NoneOf(item.0, {' ', '=', '>'}) && (item.1.None? || NoneOf(item.1.value, {'"'}))
  }

  predicate ReadableEntries(attrs: Attrs)
  {
    forall i :: 0 <= i < |attrs| ==> NoneOf(attrs[i].0, {' ', '=', '>'}) && NoneOf(attrs[i].1, {'"'})
  }

  /** No key occurs twice. */
  predicate DistinctKeys<V>(s: seq<(string, V)>)
  {
    forall i, j :: 0 <= i < j < |s| ==> s[i].0 != s[j].0
  }

  lemma ItemRoundTrip(item: Item, after: string)
    requires ReadableItem(item)
    requires |after| > 0 && after[0] in {' ', '>'}
    ensures DecodeItem(" " + AttrText(item.0, item.1) + after) == Some((item, after))
  {
    match item.1
    case None => BareItemRoundTrip(item.0, after);
    case Some(v) =>
      var eq, q := "=\"", "\"";
      assert " " + (item.0 + eq + v + q) + after == " " + (item.0 + (eq + (v + (q + after))));
      ValuedItemRoundTrip(item.0, v, after);
  }

  lemma BareItemRoundTrip(name: string, after: string)
    requires NoneOf(name, {' ', '=', '>'})
    requires |after| > 0 && after[0] in {' ', '>'}
    ensures DecodeItem(" " + name + after) == Some(((name, None), after))
  {
    var s := " " + name + after;
    assert s[1..] == name + after;
    SpanOf(name, after, {' ', '=', '>'});
    assert (name + after)[..|name|] == name;
    assert (name + after)[|name|..] == after;
  }

  lemma ValuedItemRoundTrip(name: string, v: string, after: string)
    requires NoneOf(name, {' ', '=', '>'})
    requires NoneOf(v, {'"'})
    ensures DecodeItem(" " + (name + ("=\"" + (v + ("\"" + after))))) == Some(((name, Some(v)), after))
  {
    var tail := "=\"" + (v + ("\"" + after));
    var s := " " + (name + tail);
    assert s[1..] == name + tail;
    SpanOf(name, tail, {' ', '=', '>'});
    assert (name + tail)[..|name|] == name;
    assert (name + tail)[|name|..] == tail;
    assert tail[2..] == v + ("\"" + after);
    SpanOf(v, "\"" + after, {'"'});
    assert (v + ("\"" + after))[..|v|] == v;
    assert (v + ("\"" + after))[|v| + 1..] == after;
  }

  lemma {:induction false} AttrListRoundTrip(items: seq<Item>, rest: string)
    requires forall i :: 0 <= i < |items| ==> ReadableItem(items[i])
    ensures DecodeAttrList(ItemsText(items) + (">" + rest)) == Some((items, rest))
    decreases |items|
  {
    if |items| == 0 {
      assert ItemsText(items) + (">" + rest) == ">" + rest;
    } else {
      AttrListRoundTrip(items[1..], rest);
      AttrListCons(items[0], items[1..], rest);
      assert [items[0]] + items[1..] == items;
    }
  }

  /** A readable item in front of a list that reads back reads back too. */
  lemma AttrListCons(item: Item, tail: seq<Item>, rest: string)
    requires ReadableItem(item)
    requires DecodeAttrList(ItemsText(tail) + (">" + rest)) == Some((tail, rest))
    ensures DecodeAttrList(ItemsText([item] + tail) + (">" + rest)) == Some(([item] + tail, rest))
  {
    var after := ItemsText(tail) + (">" + rest);
    var s := ItemsText([item] + tail) + (">" + rest);
    ConsText(item, tail, rest);
    ItemsTextStart(tail, rest);
    ItemRoundTrip(item, after);
    DecodeAttrListStep(s, item, after, (tail, rest));
  }

  /** The first item's text in front of the others'. */
  lemma ConsText(item: Item, tail: seq<Item>, rest: string)
    ensures ItemsText([item] + tail) + (">" + rest)
         == " " + AttrText(item.0, item.1) + (ItemsText(tail) + (">" + rest))
  {
    assert ([item] + tail)[0] == item;
    assert ([item] + tail)[1..] == tail;
  }

  /** One step of the list reader: an item, then the list after it. */
  lemma DecodeAttrListStep(s: string, item: Item, after: string, more: (seq<Item>, string))
    requires |s| > 0 && s[0] == ' '
    requires DecodeItem(s) == Some((item, after))
    requires DecodeAttrList(after) == Some(more)
    ensures DecodeAttrList(s) == Some(([item] + more.0, more.1))
  {
  }

  /** Written items followed by `>` open with a space or with that `>`. */
  lemma ItemsTextStart(items: seq<Item>, rest: string)
    ensures |ItemsText(items) + (">" + rest)| > 0
    ensures (ItemsText(items) + (">" + rest))[0] in {' ', '>'}
  {
  }

  lemma DecodeSectionParts(tag: string, items: seq<Item>, content: string, s: string, after: string, body: string)
    requires NoneOf(tag, {' ', '>'})
    requires forall i :: 0 <= i < |items| ==> ReadableItem(items[i])
    requires body == content + ("</" + tag + ">")
    requires after == ItemsText(items) + (">" + body)
    requires s == "<" + (tag + after)
    ensures DecodeSection(s) == Some(Section(tag, items, content))
  {
    var close := "</" + tag + ">";
    assert after[0] in {' ', '>'};
    SpanOf(tag, after, {' ', '>'});
    assert s[1..] == tag + after;
    assert (tag + after)[..|tag|] == tag;
    assert (tag + after)[|tag|..] == after;
    AttrListRoundTrip(items, body);
    assert body[|body| - |close|..] == close;
    assert body[..|body| - |close|] == content;
  }

  /** A section's text grouped from the right, the way the reader consumes it. */
  lemma SectionTextParts(tag: string, items: seq<Item>, content: string)
    ensures SectionText(tag, items, content)
         == "<" + (tag + (ItemsText(items) + (">" + (content + ("</" + tag + ">")))))
  {
  }

  /** Any section whose tag and items read back unambiguously is read back
      exactly: tag, items in order, and the content verbatim. */
  lemma SectionRoundTrip(tag: string, items: seq<Item>, content: string)
    requires NoneOf(tag, {' ', '>'})
    requires forall i :: 0 <= i < |items| ==> ReadableItem(items[i])
    ensures DecodeSection(SectionText(tag, items, content)) == Some(Section(tag, items, content))
  {
    SectionTextParts(tag, items, content);
    var body := content + ("</" + tag + ">");
    var after := ItemsText(items) + (">" + body);
    DecodeSectionParts(tag, items, content, SectionText(tag, items, content), after, body);
  }

  /** The order of a flagged block's attributes: `lang` first when there is a
      language, then the flag when it is set, then every other entry in
      enumeration order; neither `lang` nor the flag's key appears among the
      others, so with a map's distinct keys no attribute is written twice. */
  lemma FlaggedItemsOrder(flagName: string, lang: string, flag: bool, attrs: Attrs)
    requires flagName != "lang"
    ensures var items := FlaggedItems(flagName, lang, flag, attrs);
            var n := (if lang != "" then 1 else 0) + (if flag then 1 else 0);
            && (lang != "" ==> items[0] == ("lang", Some(lang)))
            && (flag ==> items[n - 1] == (flagName, None))
            && items[n..] == Valued(Without(attrs, {"lang", flagName}))
            && (forall i :: n <= i < |items| ==> items[i].0 != "lang" && items[i].0 != flagName)
            && (DistinctKeys(attrs) ==> DistinctKeys(items))
  {
    var items := FlaggedItems(flagName, lang, flag, attrs);
    var front: seq<Item> := (if lang != "" then [("lang", Some(lang))] else []) + (if flag then [(flagName, None)] else []);
    var rest := Valued(Without(attrs, {"lang", flagName}));
    assert items == front + rest;
    RestKeys(attrs, flagName);
    if DistinctKeys(attrs) {
      WithoutKeepsDistinct(attrs, {"lang", flagName});
      DistinctValued(Without(attrs, {"lang", flagName}));
      DistinctFront(front, rest, flagName, lang, flag);
    }
  }

  /** No remaining entry is keyed `lang` or by the flag's name. */
  lemma RestKeys(attrs: Attrs, flagName: string)
    ensures var rest := Valued(Without(attrs, {"lang", flagName}));
            forall i :: 0 <= i < |rest| ==> rest[i].0 != "lang" && rest[i].0 != flagName
  {
    var w := Without(attrs, {"lang", flagName});
    forall i | 0 <= i < |w| ensures Valued(w)[i].0 != "lang" && Valued(w)[i].0 != flagName {
      assert w[i].0 !in {"lang", flagName};
    }
  }

  lemma DistinctValued(attrs: Attrs)
    requires DistinctKeys(attrs)
    ensures DistinctKeys(Valued(attrs))
  {
  }

  lemma DistinctFront(front: seq<Item>, rest: seq<Item>, flagName: string, lang: string, flag: bool)
    requires flagName != "lang"
    requires front == (if lang != "" then [("lang", Some(lang))] else []) + (if flag then [(flagName, None)] else [])
    requires DistinctKeys(rest)
    requires forall i :: 0 <= i < |rest| ==> rest[i].0 != "lang" && rest[i].0 != flagName
    ensures DistinctKeys(front + rest)
  {
    var all := front + rest;
    forall i, j | 0 <= i < j < |all| ensures all[i].0 != all[j].0 {
      if j < |front| {
      } else if i < |front| {
        assert all[j] == rest[j - |front|];
      } else {
        assert all[i] == rest[i - |front|] && all[j] == rest[j - |front|];
      }
    }
  }

  /** Deleting keys keeps the remaining entries in their order. */
  lemma {:induction false} WithoutAppend(a: Attrs, b: Attrs, keys: set<string>)
    ensures Without(a + b, keys) == Without(a, keys) + Without(b, keys)
    decreases |a|
  {
    if |a| == 0 {
      assert a + b == b;
    } else {
      var ab := a + b;
      assert ab[0] == a[0];
      assert ab[1..] == a[1..] + b;
      WithoutAppend(a[1..], b, keys);
      var head: Attrs := if a[0].0 in keys then [] else [a[0]];
      Assoc(head, Without(a[1..], keys), Without(b, keys));
    }
  }

  /** Deleting keys from a map with distinct keys leaves distinct keys. */
  lemma {:induction false} WithoutKeepsDistinct(attrs: Attrs, keys: set<string>)
    requires DistinctKeys(attrs)
    ensures DistinctKeys(Without(attrs, keys))
    decreases |attrs|
  {
    if |attrs| > 0 {
      var tail := attrs[1..];
      WithoutKeepsDistinct(tail, keys);
      var r := Without(tail, keys);
      forall e | e in r ensures e.0 != attrs[0].0 {
        var j :| 0 <= j < |tail| && tail[j] == e;
        assert attrs[j + 1] == e;
      }
    }
  }

  /** A script block reads back as a `script` section with its flagged
      attributes and its content. */
  lemma ScriptRoundTrip(script: ScriptBlock)
    requires NoneOf(script.lang, {'"'})
    requires ReadableEntries(script.attrs)
    ensures DecodeSection(SerializeScript(script))
         == Some(Section("script", FlaggedItems("setup", script.lang, script.setup, script.attrs), script.content))
  {
    FlaggedRoundTrip("script", "setup", script.lang, script.setup, script.attrs, script.content);
  }

  /** A style block reads back as a `style` section with its flagged
      attributes and its content. */
  lemma StyleRoundTrip(style: StyleBlock)
    requires NoneOf(style.lang, {'"'})
    requires ReadableEntries(style.attrs)
    ensures DecodeSection(SerializeStyle(style))
         == Some(Section("style", FlaggedItems("scoped", style.lang, style.scoped, style.attrs), style.content))
  {
    FlaggedRoundTrip("style", "scoped", style.lang, style.scoped, style.attrs, style.content);
  }

  lemma FlaggedRoundTrip(tag: string, flagName: string, lang: string, flag: bool, attrs: Attrs, content: string)
    requires NoneOf(tag, {' ', '>'})
    requires NoneOf(flagName, {' ', '=', '>'})
    requires NoneOf(lang, {'"'})
    requires ReadableEntries(attrs)
    ensures DecodeSection(FlaggedBlockText(tag, flagName, lang, flag, attrs, content))
         == Some(Section(tag, FlaggedItems(flagName, lang, flag, attrs), content))
  {
    FlaggedItemsReadable(flagName, lang, flag, attrs);
    SectionRoundTrip(tag, FlaggedItems(flagName, lang, flag, attrs), content);
  }

  /** The flagged attributes of readable entries are readable. */
  lemma FlaggedItemsReadable(flagName: string, lang: string, flag: bool, attrs: Attrs)
    requires NoneOf(flagName, {' ', '=', '>'})
    requires NoneOf(lang, {'"'})
    requires ReadableEntries(attrs)
    ensures forall i :: 0 <= i < |FlaggedItems(flagName, lang, flag, attrs)| ==> ReadableItem(FlaggedItems(flagName, lang, flag, attrs)[i])
  {
    var items := FlaggedItems(flagName, lang, flag, attrs);
    var rest := Without(attrs, {"lang", flagName});
    var n := (if lang != "" then 1 else 0) + (if flag then 1 else 0);
    forall i | 0 <= i < |items| ensures ReadableItem(items[i]) {
      if i >= n {
        assert items[i] == Valued(rest)[i - n];
        var j :| 0 <= j < |attrs| && attrs[j] == rest[i - n];
      }
    }
  }

  /** A custom block reads back with its own type as the tag and every
      entry, `lang` included, in enumeration order. */
  lemma CustomBlockRoundTrip(block: CustomBlock)
    requires NoneOf(block.blockType, {' ', '>'})
    requires ReadableEntries(block.attrs)
    ensures DecodeSection(SerializeCustomBlock(block))
         == Some(Section(block.blockType, Valued(block.attrs), block.content))
  {
    SectionRoundTrip(block.blockType, Valued(block.attrs), block.content);
  }
}
