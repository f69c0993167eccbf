# Ansible `from_table` and `from_xml` filters in Dafny

A model of two Jinja2 filter plugins from Ansible and proofs about the model:

- `from_table` (`lib/ansible/plugins/filter/table.py`) turns PrettyTable text into a list of
  records. The first line is a border line `+---+---+`. The offsets of its `+` characters cut
  the header line and every later `|...|` line into stripped cells. Each data row becomes
  `dict(zip(header, cells))`. Any other line after the header is skipped. A bad border or
  header line ends the scan with an empty result.
- `from_xml` (`lib/ansible/plugins/filter/xml.py`) parses XML and folds the element tree into
  nested dictionaries, lists and strings, following the xml.com XML-to-JSON convention:
  - `_tag_name` rewrites a Clark-notation tag `{uri}local` to `uri:local`, then applies the
    first matching `ns_prefixes` entry;
  - `etree_to_dict` groups children by tag (a single child stays scalar unless its tag is in
    `alwayslist`), adds attributes as `@name` keys, and puts mixed text under `#text`;
  - `from_xml` checks its arguments, reports parse errors, and folds the root.

Files, one module each:

| file | module | contents |
|---|---|---|
| `wrappers.dfy` | `Wrappers` | `Option`, `Result` |
| `pystr.dfy` | `PyStr` | the Python `str` operations used: `isspace`/`strip`, clamped slicing, `startswith`, substring `in` (used only in lemma preconditions), `replace` (including an empty pattern), `splitlines`, `str(int)` |
| `dicts.dfy` | `Dicts` | Python's insertion-ordered `dict` as an association list: `d[k]`, `d[k] = v`, `update`, and the `defaultdict(list)` grouping loop |
| `host.dfy` | `Host` | the dynamically typed argument values, truthiness, the `type(x)` text of error messages, `AnsibleFilterError` |
| `table.dfy` | `Table` | `from_table`: a method with the source's loop (`line_num`, `break`, `continue`), proved equal to a functional specification, plus lemmas on that specification |
| `xml.dfy` | `Xml` | `_tag_name`, `etree_to_dict`, `from_xml`, and lemmas on the fold |

`from_table` changes local state in a loop, so it is a `method` with a `while` loop and
invariants. `_tag_name` is a first-match `for` loop with an early return and no other state;
the model writes that search as a recursive function (`Xml.ApplyPrefixes`). `etree_to_dict`
is recursive; its grouping loop and its in-place updates of `d[tag]` are written as folds over
association lists. `from_xml` is straight-line validation, a function with one branch per
check.

The XML parser (`etree.fromstring`) is foreign code. `from_xml` takes it as a function
parameter that returns either a root element or a parse error with its row and column.

## Model

| member | source | states |
|---|---|---|
| PyStr.StripSpec | lib/ansible/plugins/filter/table.py:60-61 | `strip()` returns the piece of the string between its leading and its trailing whitespace, with whitespace only around it; the result is empty exactly when the string is all whitespace |
| PyStr.Strip | lib/ansible/plugins/filter/table.py:60 | the stripped result has no whitespace at either end |
| PyStr.SliceConcat | lib/ansible/plugins/filter/table.py:60 | clamped slices at neighbouring bounds join up: `s[a:b] + s[b:c] == s[a:c]` for `a <= b <= c` |
| PyStr.SplitLines | lib/ansible/plugins/filter/table.py:52 | no line produced by `splitlines()` contains a line boundary |
| PyStr.SplitJoinLines | lib/ansible/plugins/filter/table.py:52 | splitting `\n`-terminated lines without line boundaries gives the same lines back |
| PyStr.ReplaceAbsent | lib/ansible/plugins/filter/xml.py:46-47 | `replace` leaves a string alone when the pattern does not occur in it |
| PyStr.ReplaceFront | lib/ansible/plugins/filter/xml.py:46-47 | an occurrence of the pattern at the front is replaced, and the scan continues after it |
| PyStr.ReplaceSelf | lib/ansible/plugins/filter/xml.py:47 | replacing a pattern by itself changes nothing, for every pattern, the empty one (`ns_prefixes={'': ''}`) included |
| PyStr.InsertEverywhereEmpty | lib/ansible/plugins/filter/xml.py:47 | `s.replace('', '')` is `s` |
| PyStr.InsertEverywhere | lib/ansible/plugins/filter/xml.py:46-47 | with an empty pattern, `replace` yields `len(s) + (len(s) + 1) * len(rep)` characters |
| PyStr.InsertEverywhereAt | lib/ansible/plugins/filter/xml.py:46-47 | with an empty pattern, character `k` of `s` is preceded by a copy of the replacement, at offset `k * (len(rep) + 1)`, and the characters of `s` keep their order |
| PyStr.InsertEverywhereEnd | lib/ansible/plugins/filter/xml.py:46-47 | with an empty pattern, the result ends with one more copy of the replacement |
| PyStr.NatToString | lib/ansible/plugins/filter/xml.py:121 | `str(n)` is a non-empty string of decimal digits with no leading zero |
| PyStr.NatToStringValue | lib/ansible/plugins/filter/xml.py:121 | the digits of `str(n)` denote `n` |
| PyStr.IntToStringInjective | lib/ansible/plugins/filter/xml.py:121 | different integers are formatted differently |
| Dicts.Get | lib/ansible/plugins/filter/table.py:66 | a lookup finds a value exactly when the key is present |
| Dicts.Put | lib/ansible/plugins/filter/xml.py:85-93 | `d[k] = v` stores `v` under `k` and changes no other key; an existing key keeps its place and the order of all keys, a new key goes at the end; distinct keys stay distinct |
| Dicts.PutAll | lib/ansible/plugins/filter/xml.py:82-83 | `d.update(pairs)` keeps the keys distinct, and its keys are those of `d` together with those of the pairs |
| Dicts.PutAllLast | lib/ansible/plugins/filter/table.py:66 | after `update` (or `dict(zip(...))`), a key holds the value of its last pair |
| Dicts.PutAllMissing | lib/ansible/plugins/filter/xml.py:82-83 | `update` leaves a key that is not among the pairs unchanged |
| Dicts.PutAllFresh | lib/ansible/plugins/filter/xml.py:82-83 | pairs with new, distinct keys are appended in order |
| Dicts.PutAllKeepsPrefix | lib/ansible/plugins/filter/xml.py:82-83 | pairs with keys not in `d` leave the entries of `d` in front, unchanged |
| Dicts.PutKeepsPrefix | lib/ansible/plugins/filter/xml.py:85-91 | `d[k] = v` leaves every entry before the first one with key `k` where it was |
| Dicts.AddToGroup | lib/ansible/plugins/filter/xml.py:71 | `dd[k].append(v)` appends to an existing group in place, or opens a new group `[v]` at the end; it adds exactly one value |
| Dicts.GroupKeys | lib/ansible/plugins/filter/xml.py:68-71 | grouping gives one group per distinct key, and no other groups |
| Dicts.GroupOrder | lib/ansible/plugins/filter/xml.py:68-71 | the groups come in the order in which their keys first appear |
| Dicts.GroupValues | lib/ansible/plugins/filter/xml.py:68-71 | each group is non-empty and holds exactly the values paired with its key, in their original order |
| Dicts.GroupTotal | lib/ansible/plugins/filter/xml.py:68-71 | grouping neither loses nor adds a value |
| Dicts.SelectAbsent | lib/ansible/plugins/filter/xml.py:68-71 | a key that does not occur selects no values |
| Dicts.SelectOnly | lib/ansible/plugins/filter/xml.py:72 | a key paired with one value only selects exactly that value |
| Host.StringItems | lib/ansible/plugins/filter/xml.py:72 | a tag is `in alwayslist` exactly when the list holds that string |
| Table.Borders | lib/ansible/plugins/filter/table.py:55 | the border offsets are exactly the positions of `+` in the line, strictly increasing; on a border line the first is 0 and the last is the final position |
| Table.Cells | lib/ansible/plugins/filter/table.py:60-61 | one cell per pair of neighbouring borders, none of them with whitespace at either end |
| Table.ZipKeys | lib/ansible/plugins/filter/table.py:66 | zipping the header with at least as many cells gives exactly the header names as keys, in order |
| Table.RowLines | lib/ansible/plugins/filter/table.py:65 | the data rows are lines of the input that start and end with `\|`, and every such input line is among them |
| Table.RecordKeys | lib/ansible/plugins/filter/table.py:66-68 | a record has distinct keys, which are exactly the header names |
| Table.RecordLastWins | lib/ansible/plugins/filter/table.py:66 | a repeated header name takes the value of its last column |
| Table.RecordDistinct | lib/ansible/plugins/filter/table.py:66-68 | with distinct header names, a record is the header names paired with the cells, in column order |
| Table.RecordEntries | lib/ansible/plugins/filter/table.py:65-68 | with distinct header names, entry `i` of a record is header name `i` with the stripped text of the row between borders `i` and `i + 1` |
| Table.RecordAt | lib/ansible/plugins/filter/table.py:66 | with distinct header names, entry `i` of `dict(zip(header, cells))` is `(header[i], cells[i])` |
| Table.RecordsStep | lib/ansible/plugins/filter/table.py:64-72 | one more line adds its record when it is a row line and nothing otherwise |
| Table.RecordsOfRows | lib/ansible/plugins/filter/table.py:64-71 | there is one record per data row, in order, each cut from its row |
| Table.RecordsConcat | lib/ansible/plugins/filter/table.py:52-71 | the records of two consecutive pieces of input concatenate |
| Table.SkippedLine | lib/ansible/plugins/filter/table.py:69-71 | a line that is not a row line, such as a grid line, changes nothing about the records around it |
| Table.TableResult | lib/ansible/plugins/filter/table.py:26-73 | on a table with a border line and a header line, the result has one record per later row line, in order, cut with the header's borders; the header has `len(border) - 1` names and every record's keys are exactly those names |
| Table.FromTable | lib/ansible/plugins/filter/table.py:49-73 | the loop computes `Table.FromTableSpec` of the lines; it is empty when the first line is not a border line or the second is not a row line |
| Table.FromTableFilter | lib/ansible/plugins/filter/table.py:46-52 | a non-string input fails with `from_prettytable requires a string, got <class ...> instead`; a string is split into lines and converted |
| Xml.CloseBrace | lib/ansible/plugins/filter/xml.py:36 | the lazy `(.+?)}` stops at the first `}` that leaves at least one character for the local name |
| Xml.ClarkRewrite | lib/ansible/plugins/filter/xml.py:36-42 | a tag that does not start with `{`, or that has no `}`, is not rewritten |
| Xml.ClarkTag | lib/ansible/plugins/filter/xml.py:36-42 | `{uri}local`, with a namespace without `}` or newline and a non-empty local name without a newline, becomes `uri:local` |
| Xml.FirstPrefixDecides | lib/ansible/plugins/filter/xml.py:43-47 | the first `ns_prefixes` entry whose key starts the name decides the result |
| Xml.NoPrefixUnchanged | lib/ansible/plugins/filter/xml.py:43-48 | a name that no key starts is returned as it is |
| Xml.StripNamespace | lib/ansible/plugins/filter/xml.py:42-46 | mapping a namespace to `None` turns `{uri}local` into `local` with every `uri:` in it deleted as well (`{a}xa:y` becomes `xy`) |
| Xml.StripEveryOccurrence | lib/ansible/plugins/filter/xml.py:45-46 | `{a}xa:y` with `ns_prefixes={'a': None}` becomes `xy` |
| Xml.StripNamespaceOnce | lib/ansible/plugins/filter/xml.py:42-46 | when `uri:` does not occur in `local`, mapping the namespace to `None` turns `{uri}local` into `local` |
| Xml.ClarkTagName | lib/ansible/plugins/filter/xml.py:42-47 | the prefixes of `_tag_name` are applied to `uri:local` for a Clark tag `{uri}local` |
| Xml.RenameName | lib/ansible/plugins/filter/xml.py:44-47 | a single entry `(uri, p)` turns `uri` followed by a `uri`-free rest into `p` followed by that rest |
| Xml.RenameNamespace | lib/ansible/plugins/filter/xml.py:42-47 | mapping a namespace to `p` turns `{uri}local` into `p` followed by `:local` with every occurrence of `uri` in it replaced by `p` as well |
| Xml.RenameNamespaceOnce | lib/ansible/plugins/filter/xml.py:42-47 | mapping a namespace to `p` turns `{uri}local` into `p:local`, when `uri` does not occur again in `:local` |
| Xml.TextFragments | lib/ansible/plugins/filter/xml.py:76-80 | the collected text fragments are non-empty and stripped |
| Xml.AttrKeys | lib/ansible/plugins/filter/xml.py:83 | every key the attributes add starts with `@`, and distinct attribute names give distinct keys |
| Xml.AtNamespaceTag | lib/ansible/plugins/filter/xml.py:36-42 | the Clark rewrite alone can give a tag that looks like an attribute key: `{@n}b` becomes `@n:b` |
| Xml.EtreeToDict | lib/ansible/plugins/filter/xml.py:62-95 | the result has exactly one key, the element's rewritten tag |
| Xml.LeafFold | lib/ansible/plugins/filter/xml.py:64-93 | a childless element without attributes folds to `None` or to its stripped text; with distinct attributes it folds to the `@` attributes in order, followed by `#text` when the text is not blank |
| Xml.ContentMap | lib/ansible/plugins/filter/xml.py:64-83 | an element with children or attributes folds to a dictionary with distinct keys |
| Xml.AttributesFold | lib/ansible/plugins/filter/xml.py:82-83 | every attribute `name="v"` appears as `@name: v`, whatever the children are |
| Xml.GroupKeysPlain | lib/ansible/plugins/filter/xml.py:67-72 | when the child tags are plain, the child groups have distinct keys and none of them is `#text` or starts with `@` |
| Xml.ChildrenFold | lib/ansible/plugins/filter/xml.py:67-72 | each child tag that is not `#text` and does not start with `@` maps to the collapsed list of the contents of all children with that tag, in document order |
| Xml.GroupedGet | lib/ansible/plugins/filter/xml.py:72 | looking up a key in the collapsed groups gives the collapsed values of that key |
| Xml.SingleChildFold | lib/ansible/plugins/filter/xml.py:72 | a tag that is not `#text`, does not start with `@` and occurs for one child only holds that child's content, or the one-element list of it when the tag is in `alwayslist` |
| Xml.TextFreeGroups | lib/ansible/plugins/filter/xml.py:68-72 | without a `#text` child tag, grouping makes no `#text` group |
| Xml.MixedTextFold | lib/ansible/plugins/filter/xml.py:76-88 | when no child tag is `#text`, an element with children has no `#text` without text fragments, a string for one fragment, and the list of fragments for several |
| Xml.AddTextKeepsPrefix | lib/ansible/plugins/filter/xml.py:85-91 | the `#text` assignment leaves alone the entries in front that are not `#text` |
| Xml.FoldKeepsGroups | lib/ansible/plugins/filter/xml.py:82-91 | adding the `@` attributes and `#text` after child groups with plain keys keeps the groups in front, unchanged |
| Xml.ChildrenOrder | lib/ansible/plugins/filter/xml.py:67-91 | with plain child tags, the dictionary of an element with children starts with one entry per distinct child tag, in the order the tags first appear |
| Xml.ChildrenKept | lib/ansible/plugins/filter/xml.py:67-71 | the group sizes add up to the number of children |
| Xml.FromXml | lib/ansible/plugins/filter/xml.py:107-123 | the checks are made in the source's order, with their messages: input not a string, `ns_prefixes` truthy but not a dict, `alwayslist` truthy but not a list, a parse error with its row and column. The result is a success exactly when all checks pass and the text parses, and it is then the fold of the root |
| Xml.FromXmlRoot | lib/ansible/plugins/filter/xml.py:109-123 | when the arguments pass the checks and the text parses, the conversion succeeds, and its result has the root's rewritten tag as its only key; a falsy `ns_prefixes` leaves only the Clark rewrite |
| Xml.ParseErrorDistinct | lib/ansible/plugins/filter/xml.py:120-121 | the parse error message determines the row and the column |

## Left out

- `HAS_LXML` and the `AnsibleError` for a missing lxml (`xml.py:26-30,104-106`) are left out. This is an import-time property of the host.
- `etree.fromstring` is a parameter, not a model of XML parsing.
- Parse failures other than `etree.ParseError` are not modelled, for example lxml's `ValueError` for a string with an encoding declaration. Such a failure would propagate as a different exception.
- Comments, processing instructions and entities in the tree are left out. Their `tag` is not a string, so `_tag_name` would fail on them. lxml's handling of namespaced attribute names is also left out: attribute names are taken as given.
- The regular expression engine is not modelled in general. `ns_pattern` is replaced by the rule it implements (`Xml.ClarkRewrite`, `Xml.CloseBrace`).
- `isspace` and `splitlines` use the fixed Unicode character sets of current Python. Unicode database versions are not modelled.
- `FilterModule.filters` only registers the filters with Ansible, so it is left out.
- `type(x)` is rendered in its Python 3 form (`<class 'int'>`). Python 2's `<type 'int'>` is not modelled.
- Host values are `None`, booleans, integers, strings, lists and dictionaries. Dictionaries always have string keys mapped to a string or `None`, which is the shape `ns_prefixes` is used in. Other Python types, such as floats, tuples and dictionaries with other key types, are not modelled. A `ns_prefixes` key that is not a string would make `startswith` raise. Only `DictV` entries with distinct keys stand for a Python dictionary; with a repeated key, `Xml.ApplyPrefixes` uses the first entry.
- `etree_to_dict` is modelled with `alwayslist` already a list. Called directly with its default `alwayslist=None`, `k not in None` would raise as soon as some child tag occurs exactly once (the `len(v) == 1` test comes first and short-circuits). `from_xml` always passes a list.
- Xml.ChildrenFold, Xml.SingleChildFold: these are stated for a child whose own rewritten tag is neither `#text` nor starts with `@`; the tags of the other children are not restricted. For such a tag, the `@name` keys of `update` cannot equal it, because it does not start with `@`, and the `#text` assignment cannot equal it either.
- Xml.MixedTextFold: stated when no rewritten child tag is `#text`; child tags starting with `@` are allowed.
- Xml.ChildrenOrder, Xml.GroupKeysPlain: these assume that no rewritten child tag is `#text` or starts with `@`. Xml.FoldKeepsGroups assumes the same of the group keys it is given. The Clark rewrite of a namespace starting with `@` (`Xml.AtNamespaceTag`) and an `ns_prefixes` replacement can both produce such a tag. A child group `@name` is then overwritten in place by the `update` when the element has an attribute `name`. A child group `#text` is overwritten when the element has text fragments. The functions follow the source in these cases; these three lemmas do not describe them.
- Xml.LeafFold, Xml.AttributesFold: these assume distinct attribute names, as a parsed element has.
- Width-aware column splitting (for cells that contain the delimiter, or East-Asian wide characters) is not modelled. `table.py` cuts every row at the border line's character offsets and does no such splitting, and the model follows the code.
