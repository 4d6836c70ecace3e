/**
 The slice of an lxml element tree that the build-rule codec reads and writes:
 a tag, an attribute map and an ordered list of child elements. Text, tails,
 comments and namespaces are not part of the model.

 The module also holds the two loops every level of the codec shares:
 `Collect`, the fail-fast "parse each child and append" loop, and `EmitAll`,
 the "serialise each child, abort on the first failure" loop.
 */
module Xml {

  datatype Option<+T> = None | Some(value: T)

  /** The Python exceptions a parse can raise: a missing key in `attrib`
      (`KeyError`) or indexing a childless element (`IndexError`). */
  datatype ParseError = KeyError(key: string) | IndexError

  datatype Result<+T> = Ok(value: T) | Err(error: ParseError) {

    predicate IsFailure() {
      Err?
    }

    function PropagateFailure<U>(): Result<U>
      requires Err?
    {
      Err(error)
    }

    function Extract(): T
      requires Ok?
    {
      value
    }
  }

  datatype Element = Element(tag: string, attrs: map<string, string>, children: seq<Element>)

  /** What a `to_element` returns: the success flag and the element built. */
  type Emitted = (bool, Option<Element>)

  /** The source's convention for `to_element`: `(True, element)` or `(False, None)`. */
  predicate Consistent(e: Emitted) {
    e.0 <==> e.1.Some?
  }

  /** `element.attrib[key]`, which raises `KeyError` when the key is absent. */
  function Lookup(e: Element, key: string): Result<string> {
    if key in e.attrs then Ok(e.attrs[key]) else Err(KeyError(key))
  }

  /** Every key of `keys` is an attribute. */
  predicate HasAll(attrs: map<string, string>, keys: seq<string>) {
    forall i :: 0 <= i < |keys| ==> keys[i] in attrs
  }

  /** `k` is the first key of `keys`, in lookup order, missing from `attrs`. */
  predicate FirstMissing(attrs: map<string, string>, keys: seq<string>, k: string) {
    exists i :: 0 <= i < |keys| && keys[i] == k && k !in attrs &&
      forall j :: 0 <= j < i ==> keys[j] in attrs
  }

  /** Applies `f` to every element of `xs` in order and collects the results,
      stopping at the first failure, whose error is the result. */
  function Collect<S, T>(xs: seq<S>, f: S -> Result<T>): (r: Result<seq<T>>)
    ensures r.Ok? <==> forall i :: 0 <= i < |xs| ==> f(xs[i]).Ok?
    ensures r.Ok? ==> |r.value| == |xs| && forall i :: 0 <= i < |xs| ==> f(xs[i]) == Ok(r.value[i])
    ensures r.Err? ==>
      exists i :: 0 <= i < |xs| && f(xs[i]) == Err(r.error) && (forall j :: 0 <= j < i ==> f(xs[j]).Ok?)
    decreases |xs|
  {
    if |xs| == 0 then Ok([])
    else
      var x :- f(xs[0]);
      var rest :- Collect(xs[1..], f);
      Ok([x] + rest)
  }

  /** Serialises every element of `xs` in order; `None` as soon as one
      serialisation reports failure, otherwise the emitted elements. */
  function EmitAll<T>(xs: seq<T>, f: T -> Emitted): (r: Option<seq<Element>>)
    requires forall i :: 0 <= i < |xs| ==> Consistent(f(xs[i]))
    ensures r.Some? <==> forall i :: 0 <= i < |xs| ==> f(xs[i]).0
    ensures r.Some? ==> |r.value| == |xs| && forall i :: 0 <= i < |xs| ==> f(xs[i]).1 == Some(r.value[i])
    decreases |xs|
  {
    if |xs| == 0 then Some([])
    else
      var head := f(xs[0]);
      if !head.0 then None
      else
        assert Consistent(f(xs[0]));
        match EmitAll(xs[1..], f)
        case None => None
        case Some(rest) => Some([head.1.value] + rest)
  }
}
