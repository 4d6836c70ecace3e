/**
 `BuildRule`: one build rule, four opaque strings, read from and written to a
 `rule` element's attributes. The wire name of the second attribute is
 `added_contition`, spelled that way in both directions.
 */
module RuleCodec {
  import opened Xml

  datatype BuildRule = BuildRule(productname: string, addedCondition: string, addname: string, target: string)

  const Tag := "rule"

  /** The attribute names, in the order `parse` looks them up. */
  const Keys: seq<string> := ["productname", "added_contition", "addname", "target"]

  /** The shape `ToElement` produces: tag `rule`, exactly the four
      attributes, no children. */
  predicate IsRuleElement(e: Element) {
    && e.tag == Tag
    && e.attrs.Keys == (set k | k in Keys)
    && e.children == []
  }

  /** `BuildRule.parse`: reads the four attributes and nothing else; the tag,
      further attributes and children are not inspected. */
  function Parse(e: Element): (r: Result<BuildRule>)
    ensures r.Ok? <==> HasAll(e.attrs, Keys)
    ensures r.Ok? ==>
      && r.value.productname == e.attrs[Keys[0]]
      && r.value.addedCondition == e.attrs[Keys[1]]
      && r.value.addname == e.attrs[Keys[2]]
      && r.value.target == e.attrs[Keys[3]]
    ensures r.Err? ==> r.error.KeyError? && FirstMissing(e.attrs, Keys, r.error.key)
  {
    var productname :- Lookup(e, Keys[0]);
    var addedCondition :- Lookup(e, Keys[1]);
    var addname :- Lookup(e, Keys[2]);
    var target :- Lookup(e, Keys[3]);
    Ok(BuildRule(productname, addedCondition, addname, target))
  }

  /** `BuildRule.to_element`: always succeeds, with a rule-shaped element. */
  function ToElement(rule: BuildRule): (r: Emitted)
    ensures r.0 && r.1.Some?
    ensures IsRuleElement(r.1.value)
  {
    var attrs := map[
      Keys[0] := rule.productname,
      Keys[1] := rule.addedCondition,
      Keys[2] := rule.addname,
      Keys[3] := rule.target];
    (true, Some(Element(Tag, attrs, [])))
  }

  /** Serialising a rule and parsing the element gives the same rule back. */
  lemma RoundTrip(rule: BuildRule)
    ensures Parse(ToElement(rule).1.value) == Ok(rule)
  {
  }

  /** Parsing is blind to everything but the four attributes: two elements
      that agree on them parse alike, whatever their tags, other attributes
      and children. */
  lemma ParseReadsOnlyKeys(e1: Element, e2: Element)
    requires forall i :: 0 <= i < |Keys| ==> (Keys[i] in e1.attrs <==> Keys[i] in e2.attrs)
    requires forall i :: 0 <= i < |Keys| && Keys[i] in e1.attrs ==> e1.attrs[Keys[i]] == e2.attrs[Keys[i]]
    ensures Parse(e1) == Parse(e2)
  {
  }

  /** The other direction: every rule-shaped element parses, and serialising
      the parsed rule rebuilds exactly that element. */
  lemma ElementRoundTrip(e: Element)
    requires IsRuleElement(e)
    ensures Parse(e).Ok?
    ensures ToElement(Parse(e).value) == (true, Some(e))
  {
    forall i | 0 <= i < |Keys|
      ensures Keys[i] in e.attrs
    {
      assert Keys[i] in (set k | k in Keys);
    }
    var rebuilt := ToElement(Parse(e).value).1.value;
    assert rebuilt.attrs.Keys == e.attrs.Keys;
    forall k | k in e.attrs
      ensures rebuilt.attrs[k] == e.attrs[k]
    {
      assert k == Keys[0] || k == Keys[1] || k == Keys[2] || k == Keys[3];
    }
    assert rebuilt.attrs == e.attrs;
  }
}
