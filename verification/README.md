# build_rule: build-rule file codec in Dafny

`build_rule.py` reads and writes an XML build-rule file with three levels:

- a `BuildRuleFile`: a version and an ordered list of groups;
- a `BuildGroup`: `name`, `weight`, `producttype` and an ordered list of rules;
- a `BuildRule`: the four strings `productname`, `added_contition`, `addname` and `target`.

The tree on disk is `BUILD_RULE` / version element / `buildgroup` / `rule`.
Each class has a `parse` that reads an element and a `to_element` that builds one.
`to_element` returns a `(success, element)` pair.

This project models both directions on an abstract element tree. It proves that they are inverse to each other, where the code makes them so.

| file | module | models |
|---|---|---|
| `xml.dfy` | `Xml` | the element tree `Element(tag, attrs, children)`; the `KeyError` / `IndexError` a parse raises, as `Result`; the `(bool, element)` pair, as `Emitted`; the two loops every level shares (`Collect`: parse each child and append, fail-fast; `EmitAll`: serialise each child, abort on the first failure) |
| `ascii.dfy` | `Ascii` | `str.lower` / `str.upper` on the version tag, over ASCII letters |
| `rule_codec.dfy` | `RuleCodec` | `BuildRule.parse` / `to_element` |
| `group_codec.dfy` | `GroupCodec` | `BuildGroup.parse` / `to_element` |
| `file_codec.dfy` | `FileCodec` | `BuildRuleFile.parse` (from the root element on) / `to_element` |

`GroupCodec.ToElementWith` and `FileCodec.ToElementWith` take the child serialiser as a parameter.
Because of this, the `(False, None)` early return is a proved contract rather than dead code.
`ToElement` is `ToElementWith` applied to the real child serialiser, which never fails.

Facts about `build_rule.py` that the model keeps:

- Parsing fails with the `KeyError(key)` of `attrib[...]` (build_rule.py:19-22, 45-47) or the `IndexError` of `root[0]` (build_rule.py:80).
- A root with more than one child is not rejected. Children after the first are ignored (`FileCodec.ParseReadsFirstChildOnly`).
- Every child of a group element is parsed as a rule whatever its tag. Every child of the version element is parsed as a group whatever its tag.
- For ASCII versions, the version round trip holds exactly when the stored version has no upper-case letter (`FileCodec.RoundTripLowerCase`, `FileCodec.RoundTripLosesUpperCase`). On the tree side, it holds when the version tag has no lower-case ASCII letter (`FileCodec.ElementRoundTrip`). Digits and other ASCII characters are unaffected.
- For ASCII version tags, writing a parsed file and parsing it again gives the same file, whatever the original tag's casing (`FileCodec.ReparseIsStable`). This is because the stored version is already lower-case.

## Model

| member | source | states |
|---|---|---|
| `Xml.Collect` | build_rule.py:48-51 | the parse-each-child loop succeeds exactly when every child parses; it yields one result per child, in child order; otherwise it yields the error of the first failing child |
| `Xml.EmitAll` | build_rule.py:61-65 | the serialise-each-child loop yields elements exactly when every child reports success; it gives one element per child, in order |
| `Ascii.Lower` | build_rule.py:81 | lower-casing keeps the length and leaves no upper-case letter |
| `Ascii.Upper` | build_rule.py:93 | upper-casing keeps the length and leaves no lower-case letter |
| `Ascii.LowerFixes` | build_rule.py:81 | lower-casing leaves a string unchanged iff it has no upper-case letter |
| `Ascii.LowerOfUpper` | build_rule.py:81-93 | lower(upper(s)) == s iff s has no upper-case letter |
| `Ascii.UpperOfLower` | build_rule.py:81-93 | upper(lower(s)) == s iff s has no lower-case letter |
| `RuleCodec.Parse` | build_rule.py:16-23 | succeeds iff all of `productname`, `added_contition`, `addname`, `target` are present; each field is the attribute of its wire name; otherwise `KeyError` of the first missing key in lookup order |
| `RuleCodec.ToElement` | build_rule.py:25-32 | always succeeds; tag `rule`, exactly the four attributes, no children |
| `RuleCodec.RoundTrip` | build_rule.py:17-32 | parsing a serialised rule gives the rule back, `added_contition` spelling in both directions |
| `RuleCodec.ParseReadsOnlyKeys` | build_rule.py:17-23 | two elements that agree on the four attributes parse alike, whatever their tags, other attributes and children |
| `RuleCodec.ElementRoundTrip` | build_rule.py:17-32 | every rule-shaped element parses, and serialising the result rebuilds the same element |
| `GroupCodec.Parse` | build_rule.py:42-52 | succeeds iff `name`, `weight`, `producttype` are present and every child parses as a rule; the attributes are copied verbatim; the rules follow the children's order; a missing attribute is the error before any child is looked at; otherwise the first failing child's error |
| `GroupCodec.ToElementWith` | build_rule.py:54-67 | succeeds iff every rule's serialisation succeeds, otherwise `(False, None)`; on success, tag `buildgroup`, the three attributes verbatim, one child per rule in order |
| `GroupCodec.ToElement` | build_rule.py:54-67 | always succeeds with a group-shaped element whose children are the serialised rules in order |
| `GroupCodec.RoundTrip` | build_rule.py:43-67 | parsing a serialised group gives back the same name, weight, producttype and rule sequence |
| `GroupCodec.EmptyGroup` | build_rule.py:45-52 | a group element with its attributes and no children parses to a group with no rules |
| `GroupCodec.ElementRoundTrip` | build_rule.py:43-67 | every group-shaped element parses, and serialising the result rebuilds the same element |
| `FileCodec.Parse` | build_rule.py:79-88 | fails with `IndexError` iff the root has no children; otherwise succeeds iff every child of the first root child parses as a group; version = that child's tag lower-cased; groups in child order; otherwise the first failing group's error |
| `FileCodec.ToElementWith` | build_rule.py:90-99 | succeeds iff every group's serialisation succeeds, otherwise `(False, None)`; on success, root `BUILD_RULE` with one child tagged with the upper-cased version, holding the groups in order |
| `FileCodec.ToElement` | build_rule.py:90-99 | always succeeds with a file-shaped tree whose version element holds the serialised groups in order |
| `FileCodec.RoundTrip` | build_rule.py:79-99 | parsing a serialised file gives back its groups, in order, and its version upper-cased then lower-cased |
| `FileCodec.RoundTripLowerCase` | build_rule.py:79-99 | a file whose version has no upper-case letter comes back unchanged |
| `FileCodec.RoundTripLosesUpperCase` | build_rule.py:79-99 | a file whose version has an upper-case letter does not come back unchanged |
| `FileCodec.ReparseIsStable` | build_rule.py:79-99 | for any tree that parses, writing the parsed file and parsing again gives the same file |
| `FileCodec.ElementRoundTrip` | build_rule.py:79-99 | every file-shaped tree parses, and serialising the result rebuilds the same tree |
| `FileCodec.ParseReadsFirstChildOnly` | build_rule.py:79-81 | two roots with the same first child parse alike, whatever their tags, attributes and later children |
| `FileCodec.VersionOneGroup` | build_rule.py:54-67 | the group `g1` with the one rule `p1` serialises to a `buildgroup` element with the three attributes verbatim and that rule's element as its only child |
| `FileCodec.VersionOneExample` | build_rule.py:79-99 | the `V1` / `g1` / `p1` document parses to version `v1` with that group and rule, and writing it rebuilds the tree with tag `V1` |

## Left out

- Reading the file (`etree.parse`, build_rule.py:78) and writing it (`BuildRuleFile.write`, build_rule.py:101-108) are file I/O through lxml. `FileCodec.Parse` starts from the root element. `write` only adds a file write to `to_element`'s success flag.
- `main` (build_rule.py:111-118) uses a fixed file name, prints, and overwrites the file. None of this is part of the codec.
- Case mapping covers ASCII letters only. Python's `str.lower` / `str.upper` also map non-ASCII letters, which this model leaves unchanged. So `FileCodec.RoundTripLowerCase`, `FileCodec.RoundTripLosesUpperCase` and `FileCodec.ReparseIsStable` describe the program only for ASCII version strings. Counterexamples in the program: a tag `ß` is stored as `ß`, written as `SS` and read back as `ss`; a tag `ı` is stored as `ı`, written as `I` and read back as `i`; a version `É` is written as `É` and read back as `é`.
- Tag-name validity is lxml's concern and is not modelled. For example, `SubElement` raises on an empty or invalid upper-cased version.
- RuleCodec.ToElement: lxml's check on attribute values is not modelled. A value containing NUL or another control character makes the attribute assignment at build_rule.py:28-31 raise `ValueError`, so the program never returns `(True, element)` for such a rule. The model's "always succeeds" holds only for XML-compatible strings.
- GroupCodec.ToElement: the same lxml check applies to the group attributes at build_rule.py:57-59. A group with such a value, or with such a rule, makes `to_element` raise instead of succeeding.
- FileCodec.ToElement: it inherits both restrictions through its groups and rules.
- Text, tails, namespaces and attribute order are neither read nor written by the code, and the element tree has no place for them.
- The element tree holds only element children, but lxml's iteration at build_rule.py:49 and 84 and `root[0]` at build_rule.py:80 also return comment and processing-instruction nodes, and the code then reads them. A comment inside a `buildgroup` makes build_rule.py:19 raise `KeyError('productname')`, because a comment's `attrib` is empty. A comment inside the version element makes build_rule.py:45 raise `KeyError('name')`. A comment as the root's first child makes build_rule.py:81 raise `AttributeError`, because its `.tag` is not a string. So a build file with a comment in any of these places fails to parse. The model does not represent these nodes.
