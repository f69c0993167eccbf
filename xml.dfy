/** The `from_xml` filter: an element tree folded into nested dictionaries, lists and strings.

    The conversion follows the xml.com convention the source names: an element becomes
    `{tag: content}`; repeated child tags become lists; attributes become `@name` keys; text
    mixed with child elements goes under `#text`. Parsing the XML text is done by a parser
    given as a parameter. */
module Xml {
  import opened Wrappers
  import opened PyStr
  import opened Dicts
  import opened Host

  /** An element as the parser delivers it: its tag (for a namespaced element in Clark notation,
      `{uri}local`), its attributes in document order, the text before its first child, and its
      child elements, each with the text that follows it (its tail). */
  datatype Elem = Elem(tag: string, attrib: seq<(string, string)>, text: Option<string>, children: seq<Child>)

  datatype Child = Child(node: Elem, tail: Option<string>)

  /** A folded value: `None`, a string, a list or a dictionary. */
  datatype Val = Null | Str(s: string) | Lst(items: seq<Val>) | Map(entries: Dict<Val>)

  /** The `ns_prefixes` dictionary: a namespace (as it reads after the Clark rewrite) mapped to
      a replacement prefix, or to `None` to drop it. */
  type NsPrefixes = seq<(string, Option<string>)>

  // ---------------------------------------------------------------------------------------
  // _tag_name

  /** The end of the text `ns_pattern`'s `$` can match at: before one final `\n`, else the end. */
  function MatchEnd(tag: string): (e: nat)
    ensures e <= |tag|
  {
    if |tag| > 0 && tag[|tag| - 1] == '\n' then |tag| - 1 else |tag|
  }

  /** The smallest `j >= from` with `tag[j] == '}'` that leaves at least one character before
      `e`: where the lazy `(.+?)` of `ns_pattern` stops. */
  function CloseBrace(tag: string, from: nat, e: nat): (r: Option<nat>)
    requires e <= |tag|
    ensures r.Some? ==> from <= r.value && r.value + 2 <= e && tag[r.value] == '}'
    ensures r.Some? ==> forall k :: from <= k < r.value ==> tag[k] != '}'
    ensures r.None? ==> forall k :: from <= k && k + 2 <= e ==> tag[k] != '}'
    decreases e - from
  {
    if from + 2 > e then None
    else if tag[from] == '}' then Some(from)
    else CloseBrace(tag, from + 1, e)
  }

  /** `re.sub(r'^{(.+?)}(.+?)$', r'\1:\2', tag)`: a tag `{uri}local` (neither part empty, no
      `\n` in either, `uri` ending at the first `}` that leaves `local` non-empty) becomes
      `uri:local`; any other tag is returned unchanged. */
  function ClarkRewrite(tag: string): (name: string)
    ensures |tag| == 0 || tag[0] != '{' ==> name == tag
    ensures '}' !in tag ==> name == tag
  {
    var e := MatchEnd(tag);
    if |tag| > 0 && tag[0] == '{' && '\n' !in tag[..e] then
      match CloseBrace(tag, 2, e)
      case Some(j) => tag[1..j] + ":" + tag[j + 1..e] + tag[e..]
      case None => tag
    else tag
  }

  /** With a namespace without `}` or `\n` and a non-empty local name without `\n`, the Clark
      tag `{uri}local` is rewritten to `uri:local`. */
  lemma ClarkTag(uri: string, local: string)
    requires uri != [] && local != []
    requires '}' !in uri && '\n' !in uri && '\n' !in local
    ensures ClarkRewrite("{" + uri + "}" + local) == uri + ":" + local
  {
    var tag := "{" + uri + "}" + local;
    var j := |uri| + 1;
    assert tag[j] == '}';
    assert MatchEnd(tag) == |tag| by {
      assert tag[|tag| - 1] == local[|local| - 1];
    }
    assert '\n' !in tag by {
      forall k | 0 <= k < |tag| ensures tag[k] != '\n' {
        if 1 <= k < j { assert tag[k] == uri[k - 1]; }
        if k > j { assert tag[k] == local[k - j - 1]; }
      }
    }
    assert tag[..|tag|] == tag;
    forall k | 2 <= k < j ensures tag[k] != '}' {
      assert tag[k] == uri[k - 1];
    }
    assert CloseBrace(tag, 2, |tag|) == Some(j);
    assert tag[1..j] == uri;
    assert tag[j + 1..] == local;
  }

  /** One `ns_prefixes` entry applied to a name it is a prefix of: `None` deletes every
      occurrence of `k + ':'`, a string `v` replaces every occurrence of `k` by `v`. */
  function ApplyPrefix(name: string, entry: (string, Option<string>)): string
  {
    match entry.1
    case None => Replace(name, entry.0 + ":", "")
    case Some(v) => Replace(name, entry.0, v)
  }

  /** The loop `for k, v in ns_prefixes.items(): if name.startswith(k): ... return`. */
  function ApplyPrefixes(name: string, ns: NsPrefixes): string
  {
    if ns == [] then name
    else if StartsWith(name, ns[0].0) then ApplyPrefix(name, ns[0])
    else ApplyPrefixes(name, ns[1..])
  }

  /** `_tag_name(tag, ns_prefixes)`. */
  function TagName(tag: string, ns: NsPrefixes): string
  {
    ApplyPrefixes(ClarkRewrite(tag), ns)
  }

  /** The first entry whose key is a prefix of the name decides the result. */
  lemma {:induction false} FirstPrefixDecides(name: string, ns: NsPrefixes, i: nat)
    requires i < |ns| && StartsWith(name, ns[i].0)
    requires forall j :: 0 <= j < i ==> !StartsWith(name, ns[j].0)
    ensures ApplyPrefixes(name, ns) == ApplyPrefix(name, ns[i])
  {
    if i > 0 {
      assert !StartsWith(name, ns[0].0);
      FirstPrefixDecides(name, ns[1..], i - 1);
    }
  }

  /** A name no entry's key is a prefix of is returned as it is. */
  lemma {:induction false} NoPrefixUnchanged(name: string, ns: NsPrefixes)
    requires forall j :: 0 <= j < |ns| ==> !StartsWith(name, ns[j].0)
    ensures ApplyPrefixes(name, ns) == name
  {
    if ns != [] {
      assert !StartsWith(name, ns[0].0);
      NoPrefixUnchanged(name, ns[1..]);
    }
  }

  /** Mapping a namespace to `None` strips it: `{uri}local` becomes `local` with every further
      `uri:` in it deleted too, since `replace` removes all occurrences. */
  lemma StripNamespace(uri: string, local: string)
    requires uri != [] && local != []
    requires '}' !in uri && '\n' !in uri && '\n' !in local
    ensures TagName("{" + uri + "}" + local, [(uri, None)]) == Replace(local, uri + ":", "")
  {
    var head := uri + ":";
    ClarkTagName(uri, local, [(uri, None)]);
    var name := uri + (":" + local);
    assert name == head + local;
    assert StartsWith(name, uri) by {
      assert name[..|uri|] == uri;
    }
    assert ApplyPrefixes(name, [(uri, None)]) == Replace(name, head, "");
    ReplaceFront(head, local, "");
    assert "" + Replace(local, head, "") == Replace(local, head, "");
  }

  /** When `uri:` does not occur in `local`, mapping the namespace to `None` leaves just
      `local`. */
  lemma StripNamespaceOnce(uri: string, local: string)
    requires uri != [] && local != []
    requires '}' !in uri && '\n' !in uri && '\n' !in local
    requires !Contains(local, uri + ":")
    ensures TagName("{" + uri + "}" + local, [(uri, None)]) == local
  {
    StripNamespace(uri, local);
    ReplaceAbsent(local, uri + ":", "");
  }

  /** `{a}xa:y` with `{'a': None}` drops both `a:`, not just the leading one. */
  lemma StripEveryOccurrence()
    ensures TagName("{a}xa:y", [("a", None)]) == "xy"
  {
    StripNamespace("a", "xa:y");
    DeleteBoth();
    assert "{" + "a" + "}" + "xa:y" == "{a}xa:y";
  }

  /** `'xa:y'.replace('a:', '')`: the pattern is found after the first character. */
  lemma DeleteBoth()
    ensures Replace("xa:y", "a" + ":", "") == "xy"
  {
    assert "a" + ":" == "a:";
  }

  /** Mapping a namespace to a prefix `p` renames it: `{uri}local` becomes `p` followed by
      `:local` with every further occurrence of `uri` replaced by `p` as well. */
  lemma RenameNamespace(uri: string, local: string, p: string)
    requires uri != [] && local != []
    requires '}' !in uri && '\n' !in uri && '\n' !in local
    ensures TagName("{" + uri + "}" + local, [(uri, Some(p))]) == p + Replace(":" + local, uri, p)
  {
    var rest := ":" + local;
    ClarkTagName(uri, local, [(uri, Some(p))]);
    var name := uri + rest;
    assert StartsWith(name, uri) by {
      assert name[..|uri|] == uri;
    }
    assert ApplyPrefixes(name, [(uri, Some(p))]) == Replace(name, uri, p);
    ReplaceFront(uri, rest, p);
  }

  /** When `uri` does not occur again in `:local`, mapping the namespace to `p` gives
      `p:local`. */
  lemma RenameNamespaceOnce(uri: string, local: string, p: string)
    requires uri != [] && local != []
    requires '}' !in uri && '\n' !in uri && '\n' !in local
    requires !Contains(":" + local, uri)
    ensures TagName("{" + uri + "}" + local, [(uri, Some(p))]) == p + ":" + local
  {
    ClarkTagName(uri, local, [(uri, Some(p))]);
    RenameName(uri, ":" + local, p);
  }

  /** `_tag_name` of a Clark tag applies the prefixes to `uri:local`. */
  lemma ClarkTagName(uri: string, local: string, ns: NsPrefixes)
    requires uri != [] && local != []
    requires '}' !in uri && '\n' !in uri && '\n' !in local
    ensures TagName("{" + uri + "}" + local, ns) == ApplyPrefixes(uri + (":" + local), ns)
  {
    ClarkTag(uri, local);
    assert uri + ":" + local == uri + (":" + local);
  }

  /** A single entry `(uri, p)` turns `uri + rest` into `p + rest` when `uri` does not occur in
      `rest`. */
  lemma RenameName(uri: string, rest: string, p: string)
    requires uri != [] && !Contains(rest, uri)
    ensures ApplyPrefixes(uri + rest, [(uri, Some(p))]) == p + rest
  {
    var name := uri + rest;
    assert StartsWith(name, uri) by {
      assert name[..|uri|] == uri;
    }
    assert ApplyPrefixes(name, [(uri, Some(p))]) == Replace(name, uri, p);
    ReplaceFront(uri, rest, p);
    ReplaceAbsent(rest, uri, p);
  }

  // ---------------------------------------------------------------------------------------
  // etree_to_dict

  /** `t and t.strip()`: present and not all whitespace. */
  predicate NonBlank(t: Option<string>)
  {
    t.Some? && Strip(t.value) != []
  }

  /** `[e.tail.strip() for e in children if e.tail and e.tail.strip()]`. */
  function TailFragments(cs: seq<Child>): (r: seq<string>)
    ensures forall i :: 0 <= i < |r| ==> r[i] != [] && NoOuterSpace(r[i])
  {
    if cs == [] then []
    else (if NonBlank(cs[0].tail) then [Strip(cs[0].tail.value)] else []) + TailFragments(cs[1..])
  }

  /** The `text` list of an element with children: its own stripped text, then the stripped
      tails of its children, blank ones left out. */
  function TextFragments(e: Elem): (r: seq<string>)
    ensures forall i :: 0 <= i < |r| ==> r[i] != [] && NoOuterSpace(r[i])
  {
    (if NonBlank(e.text) then [Strip(e.text.value)] else []) + TailFragments(e.children)
  }

  /** `[('@' + k, v) for k, v in elm.attrib.items()]`. */
  function AttrItems(attrib: seq<(string, string)>): (r: Dict<Val>)
    ensures |r| == |attrib|
    ensures forall i :: 0 <= i < |r| ==> r[i] == ("@" + attrib[i].0, Str(attrib[i].1))
  {
    seq(|attrib|, i requires 0 <= i < |attrib| => ("@" + attrib[i].0, Str(attrib[i].1)))
  }

  /** A group of values under one child tag: a single value stays scalar unless the tag is in
      `alwayslist`; otherwise the list of all of them. */
  function Collapse(k: string, vs: seq<Val>, always: seq<string>): Val
  {
    if |vs| == 1 && k !in always then vs[0] else Lst(vs)
  }

  /** `{k: v[0] if len(v) == 1 and k not in alwayslist else v for k, v in dd.items()}`. */
  function CollapseGroups(g: Groups<Val>, always: seq<string>): (r: Dict<Val>)
    ensures |r| == |g|
    ensures forall i :: 0 <= i < |r| ==> r[i] == (g[i].0, Collapse(g[i].0, g[i].1, always))
  {
    seq(|g|, i requires 0 <= i < |g| => (g[i].0, Collapse(g[i].0, g[i].1, always)))
  }

  /** `etree_to_dict(elm, ns_prefixes, alwayslist)`: a dictionary with one key, the rewritten
      tag of the element. */
  function EtreeToDict(e: Elem, ns: NsPrefixes, always: seq<string>): (d: Dict<Val>)
    ensures |d| == 1 && d[0].0 == TagName(e.tag, ns)
  {
    [(TagName(e.tag, ns), Content(e, ns, always))]
  }

  /** The items of the dictionaries `etree_to_dict` makes of the children, in child order:
      each child's dictionary has the single item (rewritten tag, content). */
  function ChildItems(e: Elem, ns: NsPrefixes, always: seq<string>): (items: Dict<Val>)
    decreases e, 0
  {
    seq(|e.children|, k requires 0 <= k < |e.children| =>
      (TagName(e.children[k].node.tag, ns), Content(e.children[k].node, ns, always)))
  }

  /** The value stored under the element's tag. Without children and attributes it is the
      stripped text or `None`; otherwise a dictionary built as the source builds `d[tag]`: the
      child groups, then the `@` attributes, then `#text`. */
  function Content(e: Elem, ns: NsPrefixes, always: seq<string>): Val
    decreases e, 2
  {
    if |e.children| == 0 && |e.attrib| == 0 then
      if NonBlank(e.text) then Str(Strip(e.text.value)) else Null
    else Map(AddText(PutAll(ChildGroups(e, ns, always), AttrItems(e.attrib)), e))
  }

  /** The grouped children, `{}` for an element without children. */
  function ChildGroups(e: Elem, ns: NsPrefixes, always: seq<string>): Dict<Val>
    decreases e, 1
  {
    if |e.children| > 0 then CollapseGroups(Group(ChildItems(e, ns, always)), always) else []
  }

  /** The `#text` step: one fragment is stored as a string, several as a list; without children
      a non-blank text is stored stripped; otherwise nothing is added. */
  function AddText(d: Dict<Val>, e: Elem): Dict<Val>
  {
    var texts := if |e.children| > 0 then TextFragments(e) else [];
    if |texts| == 1 then Put(d, "#text", Str(texts[0]))
    else if |texts| >= 2 then Put(d, "#text", Lst(StrList(texts)))
    else if NonBlank(e.text) then Put(d, "#text", Str(Strip(e.text.value)))
    else d
  }

  function StrList(texts: seq<string>): (r: seq<Val>)
    ensures |r| == |texts| && forall i :: 0 <= i < |r| ==> r[i] == Str(texts[i])
  {
    seq(|texts|, i requires 0 <= i < |texts| => Str(texts[i]))
  }

  // ---------------------------------------------------------------------------------------
  // Properties of the fold

  /** Attribute names are distinct, as they are in a parsed element. */
  predicate DistinctNames(attrib: seq<(string, string)>)
  {
    forall i, j :: 0 <= i < j < |attrib| ==> attrib[i].0 != attrib[j].0
  }

  /** No child's rewritten tag collides with the keys the fold adds itself (`@...`, `#text`).
      Both the Clark rewrite of a namespace that starts with `@` (see `AtNamespaceTag`) and a
      prefix replacement can make a tag that does. */
  predicate PlainChildTags(e: Elem, ns: NsPrefixes)
  {
    forall k :: 0 <= k < |e.children| ==> PlainKey(TagName(e.children[k].node.tag, ns))
  }

  predicate PlainKey(t: string)
  {
    t != "#text" && (t == [] || t[0] != '@')
  }

  /** Attribute keys all start with `@`, and are distinct when the names are. */
  lemma AttrKeys(attrib: seq<(string, string)>)
    ensures forall k :: k in Keys(AttrItems(attrib)) ==> |k| > 0 && k[0] == '@'
    ensures DistinctNames(attrib) ==> DistinctKeys(AttrItems(attrib))
  {
    var a := AttrItems(attrib);
    forall k | k in Keys(a) ensures |k| > 0 && k[0] == '@' {
      var i :| 0 <= i < |a| && Keys(a)[i] == k;
    }
    if DistinctNames(attrib) {
      forall i, j | 0 <= i < j < |a| ensures a[i].0 != a[j].0 {
        assert a[i].0[1..] == attrib[i].0 && a[j].0[1..] == attrib[j].0;
      }
    }
  }

  /** The namespace `@n`, a relative URI reference, turns the tag `{@n}b` into the key `@n:b`,
      which looks like an attribute key. */
  lemma AtNamespaceTag()
    ensures TagName("{@n}b", []) == "@n:b"
  {
    ClarkTag("@n", "b");
    assert "{" + "@n" + "}" + "b" == "{@n}b";
    assert "@n" + ":" + "b" == "@n:b";
  }

  /** A childless element folds to `None` when it has no attributes and blank or no text, to its
      stripped text when it has no attributes and some, and otherwise to the dictionary of its
      `@` attributes followed by `#text` when the text is not blank. */
  lemma LeafFold(e: Elem, ns: NsPrefixes, always: seq<string>)
    requires |e.children| == 0
    ensures |e.attrib| == 0 && !NonBlank(e.text) ==> Content(e, ns, always) == Null
    ensures |e.attrib| == 0 && NonBlank(e.text) ==> Content(e, ns, always) == Str(Strip(e.text.value))
    ensures |e.attrib| > 0 && DistinctNames(e.attrib) ==>
      Content(e, ns, always) == Map(AttrItems(e.attrib) +
        (if NonBlank(e.text) then [("#text", Str(Strip(e.text.value)))] else []))
  {
    if |e.attrib| > 0 && DistinctNames(e.attrib) {
      var a := AttrItems(e.attrib);
      assert ChildGroups(e, ns, always) == [];
      AttrKeys(e.attrib);
      assert [] + a == a;
      PutAllFresh([], a);
      AddTextLeaf(a, e);
    }
  }

  /** Without children, the `#text` step appends the stripped text when it is not blank. */
  lemma AddTextLeaf(d: Dict<Val>, e: Elem)
    requires |e.children| == 0 && "#text" !in Keys(d)
    ensures AddText(d, e) == d + (if NonBlank(e.text) then [("#text", Str(Strip(e.text.value)))] else [])
  {
  }

  /** The dictionary of an element with children or attributes has distinct keys. */
  lemma ContentMap(e: Elem, ns: NsPrefixes, always: seq<string>)
    requires |e.children| > 0 || |e.attrib| > 0
    ensures Content(e, ns, always).Map?
    ensures DistinctKeys(Content(e, ns, always).entries)
  {
    var groups := ChildGroups(e, ns, always);
    if |e.children| > 0 {
      var g := Group(ChildItems(e, ns, always));
      GroupKeys(ChildItems(e, ns, always));
      assert forall i :: 0 <= i < |groups| ==> groups[i].0 == g[i].0;
    }
    assert DistinctKeys(groups);
    assert Content(e, ns, always) == Map(AddText(PutAll(groups, AttrItems(e.attrib)), e));
  }

  /** Every attribute `name="value"` appears as `@name: value`, whatever the children are. */
  lemma AttributesFold(e: Elem, ns: NsPrefixes, always: seq<string>, i: nat)
    requires i < |e.attrib| && DistinctNames(e.attrib)
    ensures Content(e, ns, always).Map?
    ensures Get(Content(e, ns, always).entries, "@" + e.attrib[i].0) == Some(Str(e.attrib[i].1))
  {
    var a := AttrItems(e.attrib);
    AttrKeys(e.attrib);
    PutAllLast(ChildGroups(e, ns, always), a, i);
    assert "@" + e.attrib[i].0 != "#text";
  }

  /** Groups of items with plain keys have distinct plain keys. */
  lemma PlainGroups(items: Dict<Val>, always: seq<string>)
    requires forall j :: 0 <= j < |items| ==> PlainKey(items[j].0)
    ensures var groups := CollapseGroups(Group(items), always);
      DistinctKeys(groups) && forall k :: k in Keys(groups) ==> PlainKey(k)
  {
    var g := Group(items);
    var groups := CollapseGroups(g, always);
    GroupKeys(items);
    assert Keys(groups) == Keys(g);
    forall k | k in Keys(groups) ensures PlainKey(k) {
      assert k in Keys(items);
      var j :| 0 <= j < |items| && Keys(items)[j] == k;
      assert items[j].0 == k;
    }
  }

  /** Without a `#text` item key there is no `#text` group. */
  lemma TextFreeGroups(items: Dict<Val>, always: seq<string>)
    requires forall j :: 0 <= j < |items| ==> items[j].0 != "#text"
    ensures "#text" !in Keys(CollapseGroups(Group(items), always))
  {
    var g := Group(items);
    GroupKeys(items);
    assert Keys(CollapseGroups(g, always)) == Keys(g);
  }

  /** With plain child tags, the keys the fold adds itself are not among the group keys. */
  lemma GroupKeysPlain(e: Elem, ns: NsPrefixes, always: seq<string>)
    requires PlainChildTags(e, ns)
    ensures var groups := ChildGroups(e, ns, always);
      DistinctKeys(groups) && forall k :: k in Keys(groups) ==> PlainKey(k)
  {
    if |e.children| > 0 {
      var items := ChildItems(e, ns, always);
      assert forall j :: 0 <= j < |items| ==> items[j].0 == TagName(e.children[j].node.tag, ns);
      PlainGroups(items, always);
    }
  }

  /** Each child tag that cannot collide with an `@` attribute key or `#text` maps to the
      collapsed list of the contents of the children with that tag, in document order. */
  lemma ChildrenFold(e: Elem, ns: NsPrefixes, always: seq<string>, k: nat)
    requires k < |e.children| && PlainKey(TagName(e.children[k].node.tag, ns))
    ensures var t, items := TagName(e.children[k].node.tag, ns), ChildItems(e, ns, always);
      Content(e, ns, always).Map? &&
      Get(Content(e, ns, always).entries, t) == Some(Collapse(t, Select(items, t), always))
  {
    var t, items := TagName(e.children[k].node.tag, ns), ChildItems(e, ns, always);
    var a := AttrItems(e.attrib);
    AttrKeys(e.attrib);
    assert t !in Keys(a);
    var groups := ChildGroups(e, ns, always);
    assert groups == CollapseGroups(Group(items), always);
    PutAllMissing(groups, a, t);
    AddTextOther(PutAll(groups, a), e, t);
    assert Keys(items)[k] == t;
    GroupedGet(items, always, t);
  }

  /** The `#text` step leaves every other key alone. */
  lemma AddTextOther(d: Dict<Val>, e: Elem, k: string)
    requires k != "#text"
    ensures Get(AddText(d, e), k) == Get(d, k)
  {
  }

  /** Looking a key up in the collapsed groups gives the collapsed values of that key. */
  lemma GroupedGet(items: Dict<Val>, always: seq<string>, t: string)
    requires t in Keys(items)
    ensures Get(CollapseGroups(Group(items), always), t) == Some(Collapse(t, Select(items, t), always))
  {
    var g := Group(items);
    var groups := CollapseGroups(g, always);
    GroupKeys(items);
    GroupValues(items);
    var i :| 0 <= i < |g| && Keys(g)[i] == t;
    assert Keys(groups) == Keys(g);
    GetAt(groups, i);
  }

  /** A child tag that occurs once holds that child's content directly, or a one-element list
      when the tag is in `alwayslist`. */
  lemma SingleChildFold(e: Elem, ns: NsPrefixes, always: seq<string>, k: nat)
    requires k < |e.children| && PlainKey(TagName(e.children[k].node.tag, ns))
    requires forall j :: 0 <= j < |e.children| && j != k ==>
      TagName(e.children[j].node.tag, ns) != TagName(e.children[k].node.tag, ns)
    ensures var t, c := TagName(e.children[k].node.tag, ns), Content(e.children[k].node, ns, always);
      Content(e, ns, always).Map? &&
      Get(Content(e, ns, always).entries, t) == Some(if t in always then Lst([c]) else c)
  {
    ChildrenFold(e, ns, always, k);
    SelectOnly(ChildItems(e, ns, always), k);
  }

  /** The `#text` entry of an element with children, none of them tagged `#text`: absent
      without text fragments, a string for one, the list of fragments for several. */
  lemma MixedTextFold(e: Elem, ns: NsPrefixes, always: seq<string>)
    requires |e.children| > 0
    requires forall k :: 0 <= k < |e.children| ==> TagName(e.children[k].node.tag, ns) != "#text"
    ensures var texts := TextFragments(e);
      Content(e, ns, always).Map? &&
      Get(Content(e, ns, always).entries, "#text") ==
        (if |texts| == 0 then None
         else if |texts| == 1 then Some(Str(texts[0]))
         else Some(Lst(StrList(texts))))
  {
    var groups := ChildGroups(e, ns, always);
    var a := AttrItems(e.attrib);
    var items := ChildItems(e, ns, always);
    AttrKeys(e.attrib);
    assert forall j :: 0 <= j < |items| ==> items[j].0 == TagName(e.children[j].node.tag, ns);
    TextFreeGroups(items, always);
    assert groups == CollapseGroups(Group(items), always);
    assert "#text" !in Keys(a);
    assert "#text" !in Keys(groups);
    PutAllMissing(groups, a, "#text");
  }

  /** The `#text` step leaves the entries before `n` alone when none of them is `#text`. */
  lemma AddTextKeepsPrefix(d: Dict<Val>, e: Elem, n: nat)
    requires n <= |d| && forall j :: 0 <= j < n ==> d[j].0 != "#text"
    ensures |AddText(d, e)| >= n && AddText(d, e)[..n] == d[..n]
  {
    var texts := if |e.children| > 0 then TextFragments(e) else [];
    if |texts| == 1 {
      PutKeepsPrefix(d, "#text", Str(texts[0]), n);
    } else if |texts| >= 2 {
      PutKeepsPrefix(d, "#text", Lst(StrList(texts)), n);
    } else if NonBlank(e.text) {
      PutKeepsPrefix(d, "#text", Str(Strip(e.text.value)), n);
    }
  }

  /** With plain child tags, the dictionary of an element with children starts with one entry per
      distinct child tag, in the order the tags first appear, before the attributes and
      `#text`. */
  lemma ChildrenOrder(e: Elem, ns: NsPrefixes, always: seq<string>)
    requires |e.children| > 0 && PlainChildTags(e, ns)
    ensures var m, groups := Content(e, ns, always), ChildGroups(e, ns, always);
      m.Map? && |groups| <= |m.entries| && m.entries[..|groups|] == groups &&
      Keys(groups) == FirstSeen(Keys(ChildItems(e, ns, always)))
  {
    var items := ChildItems(e, ns, always);
    var groups := ChildGroups(e, ns, always);
    GroupKeysPlain(e, ns, always);
    FoldKeepsGroups(groups, e);
    GroupOrder(items);
    assert Keys(groups) == Keys(Group(items));
  }

  /** Adding the attributes and `#text` after groups with plain keys leaves the groups in
      front. */
  lemma FoldKeepsGroups(groups: Dict<Val>, e: Elem)
    requires forall k :: k in Keys(groups) ==> PlainKey(k)
    ensures var m := AddText(PutAll(groups, AttrItems(e.attrib)), e);
      |groups| <= |m| && m[..|groups|] == groups
  {
    var a := AttrItems(e.attrib);
    AttrKeys(e.attrib);
    assert forall j :: 0 <= j < |a| ==> a[j].0 !in Keys(groups) by {
      forall j | 0 <= j < |a| ensures a[j].0 !in Keys(groups) {
        assert a[j].0 == Keys(a)[j];
      }
    }
    PutAllKeepsPrefix(groups, a);
    var p := PutAll(groups, a);
    assert forall j :: 0 <= j < |groups| ==> p[j].0 != "#text" by {
      forall j | 0 <= j < |groups| ensures p[j].0 != "#text" {
        var k := groups[j].0;
        assert Keys(groups)[j] == k;
        assert PlainKey(k);
        assert p[j] == p[..|groups|][j];
      }
    }
    AddTextKeepsPrefix(p, e, |groups|);
  }

  /** Grouping keeps every child: the group sizes add up to the number of children. */
  lemma ChildrenKept(e: Elem, ns: NsPrefixes, always: seq<string>)
    ensures TotalSize(Group(ChildItems(e, ns, always))) == |e.children|
  {
    GroupTotal(ChildItems(e, ns, always));
  }

  // ---------------------------------------------------------------------------------------
  // from_xml

  /** What the XML parser makes of a string: the root element, or a syntax error at a row and
      column. */
  datatype ParseOutcome = Parsed(root: Elem) | ParseError(row: int, column: int)

  const RowHead := "XML parse error on row: "
  const ColumnSep := ", column: "

  function ParseErrorMessage(row: int, column: int): string
  {
    RowHead + (IntToString(row) + ColumnSep + IntToString(column))
  }

  /** `ns_prefixes` after `if not ns_prefixes: ns_prefixes = {}`, for an argument that passed
      the type test. */
  function NsArg(v: HostValue): NsPrefixes
  {
    if v.DictV? then v.entries else []
  }

  /** `alwayslist` after `if not alwayslist: alwayslist = []`; only its strings can match a
      tag. */
  function AlwaysArg(v: HostValue): seq<string>
  {
    if v.ListV? then StringItems(v.items) else []
  }

  /** The argument checks, in the order the filter makes them. */
  predicate BadNs(ns: HostValue)
  {
    Truthy(ns) && !ns.DictV?
  }

  predicate BadAlways(al: HostValue)
  {
    Truthy(al) && !al.ListV?
  }

  /** `from_xml(data, ns_prefixes, alwayslist)` with `etree.fromstring` given as `parse`. */
  function FromXml(data: HostValue, ns: HostValue, al: HostValue, parse: string -> ParseOutcome):
    (r: Result<Dict<Val>, FilterError>)
    ensures !data.StrV? ==>
      r == Failure(FilterError("from_xml input requires a string, got " + TypeName(data) + " instead"))
    ensures data.StrV? && BadNs(ns) ==> r == Failure(FilterError("ns_prefixes must be a dict"))
    ensures data.StrV? && !BadNs(ns) && BadAlways(al) ==>
      r == Failure(FilterError("alwayslist must be a list"))
    ensures data.StrV? && !BadNs(ns) && !BadAlways(al) && parse(data.s).ParseError? ==>
      r == Failure(FilterError(ParseErrorMessage(parse(data.s).row, parse(data.s).column)))
    ensures r.Success? <==> data.StrV? && !BadNs(ns) && !BadAlways(al) && parse(data.s).Parsed?
    ensures r.Success? ==> r.value == EtreeToDict(parse(data.s).root, NsArg(ns), AlwaysArg(al))
  {
    if !data.StrV? then
      Failure(FilterError("from_xml input requires a string, got " + TypeName(data) + " instead"))
    else if BadNs(ns) then Failure(FilterError("ns_prefixes must be a dict"))
    else if BadAlways(al) then Failure(FilterError("alwayslist must be a list"))
    else
      match parse(data.s)
      case ParseError(row, column) => Failure(FilterError(ParseErrorMessage(row, column)))
      case Parsed(root) => Success(EtreeToDict(root, NsArg(ns), AlwaysArg(al)))
  }

  /** A successful conversion is a dictionary with the root's rewritten tag as its only key; a
      falsy `ns_prefixes` leaves the Clark rewrite alone. */
  lemma FromXmlRoot(data: HostValue, ns: HostValue, al: HostValue, parse: string -> ParseOutcome)
    requires data.StrV? && !BadNs(ns) && !BadAlways(al) && parse(data.s).Parsed?
    ensures FromXml(data, ns, al, parse).Success?
    ensures var d, root := FromXml(data, ns, al, parse).value, parse(data.s).root;
      |d| == 1 && d[0].0 == TagName(root.tag, NsArg(ns)) &&
      (!Truthy(ns) ==> d[0].0 == ClarkRewrite(root.tag))
  {
  }

  /** The parse error message gives the position back: different positions, different
      messages. */
  lemma ParseErrorDistinct(r1: int, c1: int, r2: int, c2: int)
    requires ParseErrorMessage(r1, c1) == ParseErrorMessage(r2, c2)
    ensures r1 == r2 && c1 == c2
  {
    CancelPrefix(RowHead, IntToString(r1) + ColumnSep + IntToString(c1),
      IntToString(r2) + ColumnSep + IntToString(c2));
    IntToStringNoComma(r1);
    IntToStringNoComma(r2);
    SplitAtSeparator(IntToString(r1), IntToString(c1), IntToString(r2), IntToString(c2), ColumnSep);
    IntToStringInjective(r1, r2);
    IntToStringInjective(c1, c2);
  }
}
