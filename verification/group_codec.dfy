/**
 `BuildGroup`: a named, weighted group of rules, read from and written to a
 `buildgroup` element whose children are the rules in order.
 */
module GroupCodec {
  import opened Xml
  import RuleCodec

  datatype BuildGroup = BuildGroup(name: string, weight: string, producttype: string, rules: seq<RuleCodec.BuildRule>)

  const Tag := "buildgroup"

  /** The attribute names, in the order `parse` looks them up. */
  const Keys: seq<string> := ["name", "weight", "producttype"]

  /** The shape `ToElement` produces: tag `buildgroup`, exactly the three
      attributes, and rule-shaped children. */
  predicate IsGroupElement(e: Element) {
    && e.tag == Tag
    && e.attrs.Keys == (set k | k in Keys)
    && forall i :: 0 <= i < |e.children| ==> RuleCodec.IsRuleElement(e.children[i])
  }

  /** `BuildGroup.parse`: the three attributes, then every child parsed as a
      rule whatever its tag, in document order. A missing attribute is
      reported before any child is looked at; otherwise the first child
      that fails decides the error. */
  function Parse(e: Element): (r: Result<BuildGroup>)
    ensures r.Ok? <==>
      HasAll(e.attrs, Keys) && forall i :: 0 <= i < |e.children| ==> RuleCodec.Parse(e.children[i]).Ok?
    ensures r.Ok? ==>
      && r.value.name == e.attrs[Keys[0]]
      && r.value.weight == e.attrs[Keys[1]]
      && r.value.producttype == e.attrs[Keys[2]]
      && |r.value.rules| == |e.children|
      && forall i :: 0 <= i < |e.children| ==> RuleCodec.Parse(e.children[i]) == Ok(r.value.rules[i])
    ensures !HasAll(e.attrs, Keys) ==> r.Err? && r.error.KeyError? && FirstMissing(e.attrs, Keys, r.error.key)
    ensures HasAll(e.attrs, Keys) && r.Err? ==>
      exists i :: 0 <= i < |e.children| && RuleCodec.Parse(e.children[i]) == Err(r.error) &&
        (forall j :: 0 <= j < i ==> RuleCodec.Parse(e.children[j]).Ok?)
    ensures r.Err? ==> r.error.KeyError?
  {
    var name :- Lookup(e, Keys[0]);
    var weight :- Lookup(e, Keys[1]);
    var producttype :- Lookup(e, Keys[2]);
    var rules :- Collect(e.children, RuleCodec.Parse);
    Ok(BuildGroup(name, weight, producttype, rules))
  }

  /** `BuildGroup.to_element` with the rule serialiser as a parameter: the
      group attributes verbatim and one child per rule in rule order, or
      `(False, None)` as soon as one rule reports failure. */
  function ToElementWith(g: BuildGroup, emitRule: RuleCodec.BuildRule -> Emitted): (r: Emitted)
    requires forall i :: 0 <= i < |g.rules| ==> Consistent(emitRule(g.rules[i]))
    ensures Consistent(r)
    ensures r.0 <==> forall i :: 0 <= i < |g.rules| ==> emitRule(g.rules[i]).0
    ensures r.0 ==>
      && r.1.value.tag == Tag
      && r.1.value.attrs.Keys == (set k | k in Keys)
      && r.1.value.attrs[Keys[0]] == g.name
      && r.1.value.attrs[Keys[1]] == g.weight
      && r.1.value.attrs[Keys[2]] == g.producttype
      && |r.1.value.children| == |g.rules|
      && forall i :: 0 <= i < |g.rules| ==> emitRule(g.rules[i]).1 == Some(r.1.value.children[i])
  {
    var attrs := map[Keys[0] := g.name, Keys[1] := g.weight, Keys[2] := g.producttype];
    match EmitAll(g.rules, emitRule)
    case None => (false, None)
    case Some(children) => (true, Some(Element(Tag, attrs, children)))
  }

  /** `BuildGroup.to_element`: rule serialisation never fails, so neither
      does this; the children are the serialised rules in order. */
  function ToElement(g: BuildGroup): (r: Emitted)
    ensures r.0 && r.1.Some?
    ensures IsGroupElement(r.1.value)
    ensures |r.1.value.children| == |g.rules|
    ensures forall i :: 0 <= i < |g.rules| ==> r.1.value.children[i] == RuleCodec.ToElement(g.rules[i]).1.value
  {
    ToElementWith(g, RuleCodec.ToElement)
  }

  /** Serialising a group and parsing the element gives the same name,
      weight, producttype and rule sequence back. */
  lemma RoundTrip(g: BuildGroup)
    ensures Parse(ToElement(g).1.value) == Ok(g)
  {
    var e := ToElement(g).1.value;
    forall i | 0 <= i < |g.rules|
      ensures RuleCodec.Parse(e.children[i]) == Ok(g.rules[i])
    {
      RuleCodec.RoundTrip(g.rules[i]);
    }
    var rules := Collect(e.children, RuleCodec.Parse);
    assert rules.value == g.rules;
  }

  /** A group element with no children parses to a group with no rules. */
  lemma EmptyGroup(e: Element)
    requires HasAll(e.attrs, Keys)
    requires e.children == []
    ensures Parse(e).Ok? && Parse(e).value.rules == []
  {
  }

  /** The other direction: every group-shaped element parses, and
      serialising the parsed group rebuilds exactly that element. */
  lemma ElementRoundTrip(e: Element)
    requires IsGroupElement(e)
    ensures Parse(e).Ok?
    ensures ToElement(Parse(e).value) == (true, Some(e))
  {
    forall i | 0 <= i < |Keys|
      ensures Keys[i] in e.attrs
    {
      assert Keys[i] in (set k | k in Keys);
    }
    forall i | 0 <= i < |e.children|
      ensures RuleCodec.Parse(e.children[i]).Ok?
      ensures RuleCodec.ToElement(RuleCodec.Parse(e.children[i]).value) == (true, Some(e.children[i]))
    {
      RuleCodec.ElementRoundTrip(e.children[i]);
    }
    var rebuilt := ToElement(Parse(e).value).1.value;
    assert rebuilt.attrs.Keys == e.attrs.Keys;
    forall k | k in e.attrs
      ensures rebuilt.attrs[k] == e.attrs[k]
    {
      assert k == Keys[0] || k == Keys[1] || k == Keys[2];
    }
    assert rebuilt.attrs == e.attrs;
    assert rebuilt.children == e.children;
  }
}
