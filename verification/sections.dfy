/** The section serializers: `serializeScript`, `serializeStyle` and
    `serializeCustomBlock` in src/lib/serializer.ts. */
module Sections {

  import opened Wrappers
  import opened Strings

  /** A block's attribute map as its entries, in the order `Object.entries`
      enumerates them. A value of `true` is kept as its text `"true"`. */
  type Attrs = seq<(string, string)>

  /** A script block: `lang` is empty when the block has none, `setup` is
      whether the block's setup field is truthy. */
  datatype ScriptBlock = ScriptBlock(lang: string, setup: bool, attrs: Attrs, content: string)

  /** A style block: `lang` is empty when the block has none, `scoped` is
      whether the block's scoped field is truthy. */
  datatype StyleBlock = StyleBlock(lang: string, scoped: bool, attrs: Attrs, content: string)

  /** A custom block such as `<i18n>`: its type names its tag. */
  datatype CustomBlock = CustomBlock(blockType: string, attrs: Attrs, content: string)

  /** The entries whose key is not in `keys`, in their original order: a copy
      of the map with those keys deleted. */
  function Without(attrs: Attrs, keys: set<string>): (r: Attrs)
    ensures |r| <= |attrs|
    ensures forall i :: 0 <= i < |r| ==> r[i].0 !in keys && r[i] in attrs
  {
    if |attrs| == 0 then []
    else (if attrs[0].0 in keys then [] else [attrs[0]]) + Without(attrs[1..], keys)
  }

  /** The entries kept are exactly those whose key is not deleted. */
  lemma {:induction false} WithoutMembers(attrs: Attrs, keys: set<string>)
    ensures forall e :: e in Without(attrs, keys) <==> e in attrs && e.0 !in keys
    decreases |attrs|
  {
    if |attrs| > 0 {
      WithoutMembers(attrs[1..], keys);
      assert attrs == [attrs[0]] + attrs[1..];
    }
  }

  /** One attribute of an open tag: a name and, unless valueless, a value. */
  type Item = (string, Option<string>)

  /** Each item preceded by one space: the attribute part of an open tag. */
  function ItemsText(items: seq<Item>): string
  {
    if |items| == 0 then "" else " " + AttrText(items[0].0, items[0].1) + ItemsText(items[1..])
  }

  /** Entries as valued items. */
  function Valued(attrs: Attrs): (r: seq<Item>)
    ensures |r| == |attrs|
    ensures forall i :: 0 <= i < |attrs| ==> r[i] == (attrs[i].0, Some(attrs[i].1))
  {
    seq(|attrs|, i requires 0 <= i < |attrs| => (attrs[i].0, Some(attrs[i].1)))
  }

  /** A section: `<tag items>content</tag>`. */
  function SectionText(tag: string, items: seq<Item>, content: string): string
  {
    "<" + tag + ItemsText(items) + ">" + content + "</" + tag + ">"
  }

  /** Each entry as `name="value"`. */
  function EntryTexts(attrs: Attrs): (r: seq<string>)
    ensures |r| == |attrs|
    ensures forall i :: 0 <= i < |attrs| ==> r[i] == AttrText(attrs[i].0, Some(attrs[i].1))
  {
    seq(|attrs|, i requires 0 <= i < |attrs| => AttrText(attrs[i].0, Some(attrs[i].1)))
  }

  /** The entries joined by single spaces, with one leading space when the
      join is not empty: the same as every entry written after one space. */
  function RestText(attrs: Attrs): (r: string)
    ensures r == ItemsText(Valued(attrs))
  {
    JoinedEntries(attrs);
    var rest := Join(EntryTexts(attrs), " ");
    if rest != "" then " " + rest else ""
  }

  lemma {:induction false} ItemsTextIsJoin(attrs: Attrs)
    ensures ItemsText(Valued(attrs)) == Join(Prefixed(" ", EntryTexts(attrs)), "")
    decreases |attrs|
  {
    if |attrs| > 0 {
      ItemsTextIsJoin(attrs[1..]);
      assert Valued(attrs)[1..] == Valued(attrs[1..]);
      assert Prefixed(" ", EntryTexts(attrs))[1..] == Prefixed(" ", EntryTexts(attrs[1..]));
    }
  }

  /** The code's join-then-prefix form is the same as one space before every
      entry. */
  lemma JoinedEntries(attrs: Attrs)
    ensures var rest := Join(EntryTexts(attrs), " ");
            (if rest != "" then " " + rest else "") == ItemsText(Valued(attrs))
  {
    var texts := EntryTexts(attrs);
    forall i | 0 <= i < |texts| ensures |texts[i]| > 0 {
    }
    JoinEmpty(texts, " ");
    ItemsTextIsJoin(attrs);
    if |texts| > 0 {
      LeadingSeparator(texts, " ");
    }
  }

  lemma ItemsTextAppend(a: seq<Item>, b: seq<Item>)
    ensures ItemsText(a + b) == ItemsText(a) + ItemsText(b)
    decreases |a|
  {
    if |a| > 0 {
      assert (a + b)[0] == a[0];
      assert (a + b)[1..] == a[1..] + b;
      ItemsTextAppend(a[1..], b);
    } else {
      assert a + b == b;
    }
  }

  /** The attributes a script or style block's open tag carries, in order:
      `lang` when there is a language, the flag when it is set, then every
      entry not keyed `lang` or by the flag's name. */
  function FlaggedItems(flagName: string, lang: string, flag: bool, attrs: Attrs): seq<Item>
  {
    (if lang != "" then [("lang", Some(lang))] else [])
    + (if flag then [(flagName, None)] else [])
    + Valued(Without(attrs, {"lang", flagName}))
  }

  lemma FlaggedItemsText(flagName: string, lang: string, flag: bool, attrs: Attrs)
    ensures ItemsText(FlaggedItems(flagName, lang, flag, attrs))
         == (if lang != "" then " " + AttrText("lang", Some(lang)) else "")
            + (if flag then " " + AttrText(flagName, None) else "")
            + RestText(Without(attrs, {"lang", flagName}))
  {
    var langItems: seq<Item> := if lang != "" then [("lang", Some(lang))] else [];
    var flagItems: seq<Item> := if flag then [(flagName, None)] else [];
    var rest := Without(attrs, {"lang", flagName});
    ItemsTextAppend(langItems, flagItems);
    ItemsTextAppend(langItems + flagItems, Valued(rest));
    assert ItemsText(langItems) == (if lang != "" then " " + AttrText("lang", Some(lang)) else "");
    assert ItemsText(flagItems) == (if flag then " " + AttrText(flagName, None) else "");
  }

  /** The shared shape of script and style blocks: a ` lang="..."` attribute
      when there is a language, the flag attribute when it is set, then the
      remaining entries with `lang` and the flag's key removed. */
  function FlaggedBlockText(tag: string, flagName: string, lang: string, flag: bool, attrs: Attrs, content: string): (r: string)
    ensures r == SectionText(tag, FlaggedItems(flagName, lang, flag, attrs), content)
  {
    var langText := if lang != "" then " " + AttrText("lang", Some(lang)) else "";
    var flagText := if flag then " " + AttrText(flagName, None) else "";
    var restText := RestText(Without(attrs, {"lang", flagName}));
    FlaggedItemsText(flagName, lang, flag, attrs);
    Assoc("<" + tag, langText + flagText, restText);
    Assoc("<" + tag, langText, flagText);
    "<" + tag + langText + flagText + restText + ">" + content + "</" + tag + ">"
  }

  /** `serializeScript`, for both the plain and the setup script. */
  function SerializeScript(script: ScriptBlock): (r: string)
    ensures r == SectionText("script", FlaggedItems("setup", script.lang, script.setup, script.attrs), script.content)
  {
    FlaggedBlockText("script", "setup", script.lang, script.setup, script.attrs, script.content)
  }

  /** `serializeStyle`. */
  function SerializeStyle(style: StyleBlock): (r: string)
    ensures r == SectionText("style", FlaggedItems("scoped", style.lang, style.scoped, style.attrs), style.content)
  {
    FlaggedBlockText("style", "scoped", style.lang, style.scoped, style.attrs, style.content)
  }

  /** `serializeCustomBlock`: the block type is both tag names and every
      entry renders, `lang` included. */
  function SerializeCustomBlock(block: CustomBlock): (r: string)
    ensures r == SectionText(block.blockType, Valued(block.attrs), block.content)
  {
    "<" + block.blockType + RestText(block.attrs) + ">" + block.content + "</" + block.blockType + ">"
  }
}
