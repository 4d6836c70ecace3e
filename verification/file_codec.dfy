/**
 `BuildRuleFile`: a version plus the ordered groups, read from and written to
 the tree `BUILD_RULE` / version element / `buildgroup` elements. The version
 is stored lower-cased and written upper-cased as the version element's tag.
 Reading the file and writing it out are not modelled: `Parse` starts from
 the root element the XML library returns.
 */
module FileCodec {
  import opened Xml
  import Ascii
  import GroupCodec
  import RuleCodec

  datatype BuildRuleFile = BuildRuleFile(version: string, buildgroups: seq<GroupCodec.BuildGroup>)

  /** The root tag written; on reading, the root's tag is never looked at. */
  const RootTag := "BUILD_RULE"

  /** The shape `ToElement` produces: a bare `BUILD_RULE` root holding one bare
      version element, whose tag has no lower-case letter and whose children
      are group-shaped. */
  predicate IsFileElement(root: Element) {
    && root.tag == RootTag
    && root.attrs == map[]
    && |root.children| == 1
    && root.children[0].attrs == map[]
    && Ascii.NoLower(root.children[0].tag)
    && forall i :: 0 <= i < |root.children[0].children| ==> GroupCodec.IsGroupElement(root.children[0].children[i])
  }

  /** `BuildRuleFile.parse` from `tree.getroot()` on: `root[0]` raises
      `IndexError` on a childless root; otherwise the version is that
      child's tag lower-cased and every child of it is parsed as a group, in
      order. Later root children are ignored. */
  function Parse(root: Element): (r: Result<BuildRuleFile>)
    ensures r == Err(IndexError) <==> |root.children| == 0
    ensures r.Ok? <==>
      |root.children| > 0 &&
      forall i :: 0 <= i < |root.children[0].children| ==> GroupCodec.Parse(root.children[0].children[i]).Ok?
    ensures r.Ok? ==>
      && r.value.version == Ascii.Lower(root.children[0].tag)
      && |r.value.buildgroups| == |root.children[0].children|
      && forall i :: 0 <= i < |root.children[0].children| ==>
           GroupCodec.Parse(root.children[0].children[i]) == Ok(r.value.buildgroups[i])
    ensures r.Err? && |root.children| > 0 ==>
      exists i :: 0 <= i < |root.children[0].children| && GroupCodec.Parse(root.children[0].children[i]) == Err(r.error) &&
        (forall j :: 0 <= j < i ==> GroupCodec.Parse(root.children[0].children[j]).Ok?)
  {
    if |root.children| == 0 then Err(IndexError)
    else
      var versionElement := root.children[0];
      var version := Ascii.Lower(versionElement.tag);
      var groups :- Collect(versionElement.children, GroupCodec.Parse);
      Ok(BuildRuleFile(version, groups))
  }

  /** `BuildRuleFile.to_element` with the group serialiser as a parameter:
      a `BUILD_RULE` root whose only child is tagged with the upper-cased
      version and holds the groups in order, or `(False, None)` as soon as
      one group reports failure. */
  function ToElementWith(f: BuildRuleFile, emitGroup: GroupCodec.BuildGroup -> Emitted): (r: Emitted)
    requires forall i :: 0 <= i < |f.buildgroups| ==> Consistent(emitGroup(f.buildgroups[i]))
    ensures Consistent(r)
    ensures r.0 <==> forall i :: 0 <= i < |f.buildgroups| ==> emitGroup(f.buildgroups[i]).0
    ensures r.0 ==>
      && r.1.value.tag == RootTag
      && |r.1.value.children| == 1
      && r.1.value.children[0].tag == Ascii.Upper(f.version)
      && |r.1.value.children[0].children| == |f.buildgroups|
      && forall i :: 0 <= i < |f.buildgroups| ==>
           emitGroup(f.buildgroups[i]).1 == Some(r.1.value.children[0].children[i])
  {
    match EmitAll(f.buildgroups, emitGroup)
    case None => (false, None)
    case Some(groups) =>
      var versionElement := Element(Ascii.Upper(f.version), map[], groups);
      (true, Some(Element(RootTag, map[], [versionElement])))
  }

  /** `BuildRuleFile.to_element`: group serialisation never fails, so
      neither does this; the groups appear in order under the version
      element. */
  function ToElement(f: BuildRuleFile): (r: Emitted)
    ensures r.0 && r.1.Some?
    ensures IsFileElement(r.1.value)
    ensures r.1.value.children[0].tag == Ascii.Upper(f.version)
    ensures |r.1.value.children[0].children| == |f.buildgroups|
    ensures forall i :: 0 <= i < |f.buildgroups| ==>
      r.1.value.children[0].children[i] == GroupCodec.ToElement(f.buildgroups[i]).1.value
  {
    ToElementWith(f, GroupCodec.ToElement)
  }

  /** Serialising a file and parsing the tree gives back the same groups and
      the version upper-cased and lower-cased again. */
  lemma RoundTrip(f: BuildRuleFile)
    ensures Parse(ToElement(f).1.value) == Ok(BuildRuleFile(Ascii.Lower(Ascii.Upper(f.version)), f.buildgroups))
  {
    var root := ToElement(f).1.value;
    var versionElement := root.children[0];
    forall i | 0 <= i < |f.buildgroups|
      ensures GroupCodec.Parse(versionElement.children[i]) == Ok(f.buildgroups[i])
    {
      GroupCodec.RoundTrip(f.buildgroups[i]);
    }
    var groups := Collect(versionElement.children, GroupCodec.Parse);
    assert groups.value == f.buildgroups;
  }

  /** A file whose version has no upper-case letter comes back unchanged. */
  lemma RoundTripLowerCase(f: BuildRuleFile)
    requires Ascii.NoUpper(f.version)
    ensures Parse(ToElement(f).1.value) == Ok(f)
  {
    RoundTrip(f);
    Ascii.LowerOfUpper(f.version);
  }

  /** The transform is lossy otherwise: a file whose version has an
      upper-case letter does not come back unchanged. */
  lemma RoundTripLosesUpperCase(f: BuildRuleFile)
    requires !Ascii.NoUpper(f.version)
    ensures Parse(ToElement(f).1.value) != Ok(f)
  {
    RoundTrip(f);
  }

  /** Whatever casing the input tree had, writing a parsed file and parsing
      the result again gives the same file. */
  lemma ReparseIsStable(root: Element)
    requires Parse(root).Ok?
    ensures Parse(ToElement(Parse(root).value).1.value) == Parse(root)
  {
    RoundTripLowerCase(Parse(root).value);
  }

  /** The other direction: every tree of the written shape parses, and
      serialising the parsed file rebuilds exactly that tree. */
  lemma ElementRoundTrip(root: Element)
    requires IsFileElement(root)
    ensures Parse(root).Ok?
    ensures ToElement(Parse(root).value) == (true, Some(root))
  {
    var versionElement := root.children[0];
    forall i | 0 <= i < |versionElement.children|
      ensures GroupCodec.Parse(versionElement.children[i]).Ok?
      ensures GroupCodec.ToElement(GroupCodec.Parse(versionElement.children[i]).value) == (true, Some(versionElement.children[i]))
    {
      GroupCodec.ElementRoundTrip(versionElement.children[i]);
    }
    Ascii.UpperOfLower(versionElement.tag);
    var rebuilt := ToElement(Parse(root).value).1.value;
    assert rebuilt.children[0].children == versionElement.children;
    assert rebuilt.children[0] == versionElement;
    assert rebuilt.children == root.children;
  }

  /** Only the root's first child is read: the root's tag, its attributes
      and any later children make no difference. */
  lemma ParseReadsFirstChildOnly(root: Element, other: Element)
    requires |root.children| > 0 && |other.children| > 0
    requires root.children[0] == other.children[0]
    ensures Parse(root) == Parse(other)
  {
  }

  /** The group of `VersionOneExample` serialises to its `buildgroup` element. */
  lemma VersionOneGroup()
    ensures
      var rule := Element(RuleCodec.Tag, map["productname" := "p1", "added_contition" := "c1", "addname" := "a1", "target" := "t1"], []);
      var g := GroupCodec.BuildGroup("g1", "10", "app", [RuleCodec.BuildRule("p1", "c1", "a1", "t1")]);
      GroupCodec.ToElement(g).1.value == Element(GroupCodec.Tag, map["name" := "g1", "weight" := "10", "producttype" := "app"], [rule])
  {
    var r := RuleCodec.BuildRule("p1", "c1", "a1", "t1");
    var rule := Element(RuleCodec.Tag, map["productname" := "p1", "added_contition" := "c1", "addname" := "a1", "target" := "t1"], []);
    assert RuleCodec.ToElement(r).1.value == rule;
    var groupElement := GroupCodec.ToElement(GroupCodec.BuildGroup("g1", "10", "app", [r])).1.value;
    assert groupElement.attrs == map["name" := "g1", "weight" := "10", "producttype" := "app"];
    assert groupElement.children == [rule];
  }

  /** A one-group, one-rule document with version tag `V1` parses to version
      `v1` with that group and rule, and writing it back rebuilds the tree,
      tag `V1` included. */
  lemma VersionOneExample()
    ensures
      var rule := Element(RuleCodec.Tag, map["productname" := "p1", "added_contition" := "c1", "addname" := "a1", "target" := "t1"], []);
      var group := Element(GroupCodec.Tag, map["name" := "g1", "weight" := "10", "producttype" := "app"], [rule]);
      var root := Element(RootTag, map[], [Element("V1", map[], [group])]);
      var expected := BuildRuleFile("v1", [GroupCodec.BuildGroup("g1", "10", "app", [RuleCodec.BuildRule("p1", "c1", "a1", "t1")])]);
      && Parse(root) == Ok(expected)
      && ToElement(expected) == (true, Some(root))
  {
    VersionOneGroup();
    assert Ascii.Upper("v1") == "V1" by {
      assert Ascii.Upper("v1")[0] == 'V';
      assert Ascii.Upper("v1")[1] == '1';
    }
    var rule := Element(RuleCodec.Tag, map["productname" := "p1", "added_contition" := "c1", "addname" := "a1", "target" := "t1"], []);
    var group := Element(GroupCodec.Tag, map["name" := "g1", "weight" := "10", "producttype" := "app"], [rule]);
    var root := Element(RootTag, map[], [Element("V1", map[], [group])]);
    var expected := BuildRuleFile("v1", [GroupCodec.BuildGroup("g1", "10", "app", [RuleCodec.BuildRule("p1", "c1", "a1", "t1")])]);
    var written := ToElement(expected).1.value;
    assert written.children[0].children == [group];
    assert written == root;
    assert Ascii.NoUpper(expected.version);
    RoundTripLowerCase(expected);
  }
}
