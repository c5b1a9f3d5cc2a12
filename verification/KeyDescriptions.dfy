/** `KeyDescriber`: rebuilding a key description from the visits its type makes. */
module KeyDescriptions {
  import opened ByteStrings

  type Name = string

  datatype KeyDescription =
    | Basic(kind: Name)
    | Composite(composite: Name, fields: seq<KeyDescription>, attributes: map<Name, Name>)

  // One call of a visitor method.
  datatype Visit =
    | VisitType(kind: Name)
    | VisitComposite(composite: Name, count: nat)
    | VisitAttribute(key: Name, value: Name)

  // A composite under construction; `count` stands for the capacity of its list of fields.
  datatype Partial = Partial(composite: Name, fields: seq<KeyDescription>, attributes: map<Name, Name>, count: nat)

  datatype State = State(stack: seq<Partial>, result: Option<KeyDescription>)

  // A type as it describes itself: attributes in the order they are visited.
  datatype KeyType =
    | Leaf(kind: Name)
    | Node(composite: Name, attributeList: seq<(Name, Name)>, children: seq<KeyType>)

  // Every composite has at least one field.
  predicate NonEmpty(t: KeyType) {
    t.Node? ==> t.children != [] && forall c :: c in t.children ==> NonEmpty(c)
  }

  function Attributes(list: seq<(Name, Name)>): map<Name, Name> {
    if list == [] then map[]
    else Attributes(list[..|list| - 1])[list[|list| - 1].0 := list[|list| - 1].1]
  }

  // The description the type stands for.
  function Description(t: KeyType): KeyDescription {
    match t
    case Leaf(kind) => Basic(kind)
    case Node(composite, list, children) => Composite(composite, Descriptions(children), Attributes(list))
  }

  function Descriptions(ts: seq<KeyType>): (r: seq<KeyDescription>)
    ensures |r| == |ts|
  {
    if ts == [] then [] else [Description(ts[0])] + Descriptions(ts[1..])
  }

  // The visits a type makes: itself, its attributes, then its fields.
  function Visits(t: KeyType): seq<Visit> {
    match t
    case Leaf(kind) => [VisitType(kind)]
    case Node(composite, list, children) =>
      [VisitComposite(composite, |children|)] + AttributeVisits(list) + AllVisits(children)
  }

  function AttributeVisits(list: seq<(Name, Name)>): seq<Visit> {
    seq(|list|, i requires 0 <= i < |list| => VisitAttribute(list[i].0, list[i].1))
  }

  function AllVisits(ts: seq<KeyType>): seq<Visit> {
    if ts == [] then [] else Visits(ts[0]) + AllVisits(ts[1..])
  }

  // ---------------------------------------------------------------- the describer

  // Adds a finished description to the composite on top, which may finish that one in turn. A second result is a
  // failed assertion in the source.
  function Record(s: State, d: KeyDescription): Option<State>
    decreases |s.stack|
  {
    if s.stack == [] then
      if s.result.None? then Some(State([], Some(d))) else None
    else
      var top := s.stack[|s.stack| - 1];
      var fields := top.fields + [d];
      var below := s.stack[..|s.stack| - 1];
      if |fields| == top.count then Record(State(below, s.result), Composite(top.composite, fields, top.attributes))
      else Some(State(below + [top.(fields := fields)], s.result))
  }

  function Step(s: State, v: Visit): Option<State> {
    match v
    case VisitType(kind) => Record(s, Basic(kind))
    case VisitComposite(composite, count) => Some(s.(stack := s.stack + [Partial(composite, [], map[], count)]))
    case VisitAttribute(key, value) =>
      if s.stack == [] then None
      else
        var top := s.stack[|s.stack| - 1];
        Some(s.(stack := s.stack[..|s.stack| - 1] + [top.(attributes := top.attributes[key := value])]))
  }

  function Run(s: State, vs: seq<Visit>): Option<State>
    decreases |vs|
  {
    if vs == [] then Some(s)
    else match Step(s, vs[0])
      case None => None
      case Some(s1) => Run(s1, vs[1..])
  }

  class KeyDescriber {
    var stack: seq<Partial>
    var result: Option<KeyDescription>

    constructor ()
      ensures stack == [] && result == None
    {
      stack, result := [], None;
    }

    method RecordDescription(description: KeyDescription) returns (panics: bool)
      modifies this
      ensures panics <==> Record(State(old(stack), old(result)), description).None?
      ensures !panics ==> Record(State(old(stack), old(result)), description) == Some(State(stack, result))
      decreases |stack|
    {
      if stack == [] {
        if result.Some? {
          return true;
        }
        result := Some(description);
        return false;
      }
      var n := |stack| - 1;
      var composite := stack[n].(fields := stack[n].fields + [description]);
      stack := stack[..n] + [composite];
      if |composite.fields| == composite.count {
        assert stack[..n] == old(stack)[..n];
        stack := stack[..n];
        panics := RecordDescription(Composite(composite.composite, composite.fields, composite.attributes));
      } else {
        panics := false;
      }
    }

    method Visit(v: Visit) returns (panics: bool)
      modifies this
      ensures panics <==> Step(State(old(stack), old(result)), v).None?
      ensures !panics ==> Step(State(old(stack), old(result)), v) == Some(State(stack, result))
    {
      match v {
        case VisitType(kind) => panics := RecordDescription(Basic(kind));
        case VisitComposite(composite, count) =>
          stack := stack + [Partial(composite, [], map[], count)];
          panics := false;
        case VisitAttribute(key, value) =>
          if stack == [] {
            return true;
          }
          var n := |stack| - 1;
          stack := stack[..n] + [stack[n].(attributes := stack[n].attributes[key := value])];
          panics := false;
      }
    }
  }

  // ---------------------------------------------------------------- reconstruction

  lemma {:induction false} RunConcat(s: State, a: seq<Visit>, b: seq<Visit>)
    ensures Run(s, a + b) == match Run(s, a) case None => None case Some(s1) => Run(s1, b)
    decreases |a|
  {
    if a == [] {
      assert a + b == b;
    } else {
      assert (a + b)[1..] == a[1..] + b;
      if Step(s, a[0]).Some? {
        RunConcat(Step(s, a[0]).value, a[1..], b);
      }
    }
  }

  // Attribute visits reach the composite on top, the later value of a key winning.
  lemma {:induction false} RunAttributes(below: seq<Partial>, top: Partial, result: Option<KeyDescription>,
                                         list: seq<(Name, Name)>)
    requires top.attributes == map[]
    ensures Run(State(below + [top], result), AttributeVisits(list)) ==
            Some(State(below + [top.(attributes := Attributes(list))], result))
    decreases |list|
  {
    var s := State(below + [top], result);
    if list == [] {
      assert top.(attributes := map[]) == top;
    } else {
      var n := |list| - 1;
      var init := list[..n];
      RunAttributes(below, top, result, init);
      assert AttributeVisits(list) == AttributeVisits(init) + [VisitAttribute(list[n].0, list[n].1)];
      RunConcat(s, AttributeVisits(init), [VisitAttribute(list[n].0, list[n].1)]);
      var mid := State(below + [top.(attributes := Attributes(init))], result);
      assert mid.stack[..|below|] == below;
      var v := VisitAttribute(list[n].0, list[n].1);
      assert [v][1..] == [];
      assert Run(mid, [v]) == Step(mid, v);
    }
  }

  // The visits of a type have the same effect as recording its description.
  lemma {:induction false} RunVisits(s: State, t: KeyType)
    requires NonEmpty(t)
    ensures Run(s, Visits(t)) == Record(s, Description(t))
    decreases t, 1
  {
    match t
    case Leaf(kind) =>
      assert [VisitType(kind)][1..] == [];
    case Node(composite, list, children) =>
      var open := Partial(composite, [], map[], |children|);
      var first := [VisitComposite(composite, |children|)];
      var attributes := AttributeVisits(list);
      RunConcat(s, first + attributes, AllVisits(children));
      RunConcat(s, first, attributes);
      assert first[1..] == [];
      RunAttributes(s.stack, open, s.result, list);
      RunFields(s.stack, open.(attributes := Attributes(list)), s.result, children, t);
      assert open.fields + Descriptions(children) == Descriptions(children);
  }

  // The visits of the missing fields of the composite on top complete it.
  lemma {:induction false} RunFields(below: seq<Partial>, top: Partial, result: Option<KeyDescription>,
                                     ts: seq<KeyType>, parent: KeyType)
    requires ts != [] && |top.fields| + |ts| == top.count
    requires forall c :: c in ts ==> NonEmpty(c) && c < parent
    ensures Run(State(below + [top], result), AllVisits(ts)) ==
            Record(State(below, result), Composite(top.composite, top.fields + Descriptions(ts), top.attributes))
    decreases parent, 0, |ts|
  {
    var s := State(below + [top], result);
    var d := Description(ts[0]);
    assert ts[0] in ts;
    RunConcat(s, Visits(ts[0]), AllVisits(ts[1..]));
    RunVisits(s, ts[0]);
    assert s.stack[..|below|] == below;
    var top' := top.(fields := top.fields + [d]);
    if |ts| == 1 {
      assert ts[1..] == [];
      assert Descriptions(ts) == [d];
      assert AllVisits(ts[1..]) == [];
    } else {
      assert Record(s, d) == Some(State(below + [top'], result));
      RunFields(below, top', result, ts[1..], parent);
      assert top'.fields + Descriptions(ts[1..]) == top.fields + Descriptions(ts);
    }
  }

  // Describing a type rebuilds exactly its description, attributes on the right node, and leaves nothing open.
  lemma DescribeReconstructs(t: KeyType)
    requires NonEmpty(t)
    ensures Run(State([], None), Visits(t)) == Some(State([], Some(Description(t))))
  {
    RunVisits(State([], None), t);
  }

  // The attribute list gives `key` this value, the last time it names the key.
  ghost predicate LastGiven(list: seq<(Name, Name)>, key: Name, value: Name) {
    exists i :: 0 <= i < |list| && list[i] == (key, value) && forall j :: i < j < |list| ==> list[j].0 != key
  }

  // The description matches the type: the same kinds at the same places, and on each node exactly the attributes given
  // there, with the values given last.
  ghost predicate Matches(t: KeyType, d: KeyDescription) {
    match t
    case Leaf(kind) => d == Basic(kind)
    case Node(composite, list, children) =>
      && d.Composite? && d.composite == composite && |d.fields| == |children|
      && (forall i :: 0 <= i < |children| ==> Matches(children[i], d.fields[i]))
      && (forall key, value :: key in d.attributes && d.attributes[key] == value <==> LastGiven(list, key, value))
  }

  lemma {:induction false} AttributesMean(list: seq<(Name, Name)>, key: Name, value: Name)
    ensures key in Attributes(list) && Attributes(list)[key] == value <==> LastGiven(list, key, value)
  {
    if list != [] {
      var n := |list| - 1;
      AttributesMean(list[..n], key, value);
      if list[n].0 != key {
        if i :| 0 <= i < n && list[..n][i] == (key, value) && forall j :: i < j < n ==> list[..n][j].0 != key {
          assert list[i] == (key, value) && forall j :: i < j < n ==> list[..n][j] == list[j];
        }
        if i :| 0 <= i < |list| && list[i] == (key, value) && forall j :: i < j < |list| ==> list[j].0 != key {
          assert list[..n][i] == (key, value) && forall j :: i < j < n ==> list[..n][j] == list[j];
        }
      } else if list[n].1 == value {
        assert list[n] == (key, value);
      }
    }
  }

  lemma {:induction false} DescriptionsAt(ts: seq<KeyType>, i: nat)
    requires i < |ts|
    ensures Descriptions(ts)[i] == Description(ts[i])
  {
    if i > 0 {
      DescriptionsAt(ts[1..], i - 1);
    }
  }

  lemma {:induction false} DescriptionMatches(t: KeyType)
    ensures Matches(t, Description(t))
  {
    match t
    case Leaf(_) =>
    case Node(composite, list, children) =>
      forall i | 0 <= i < |children| ensures Matches(children[i], Description(t).fields[i]) {
        DescriptionsAt(children, i);
        DescriptionMatches(children[i]);
      }
      forall key, value
        ensures key in Attributes(list) && Attributes(list)[key] == value <==> LastGiven(list, key, value)
      {
        AttributesMean(list, key, value);
      }
  }

  // `KeyDescription::for_key`
  method Describe(t: KeyType) returns (r: Option<KeyDescription>)
    requires NonEmpty(t)
    ensures r == Some(Description(t)) && Matches(t, r.value)
  {
    var describer := new KeyDescriber();
    var visits := Visits(t);
    DescribeReconstructs(t);
    for i := 0 to |visits|
      invariant fresh(describer)
      invariant Run(State([], None), visits) == Run(State(describer.stack, describer.result), visits[i..])
    {
      assert visits[i..][0] == visits[i] && visits[i..][1..] == visits[i + 1..];
      var panics := describer.Visit(visits[i]);
      if panics {
        assert false;
      }
    }
    r := describer.result;
    DescriptionMatches(t);
  }
}
