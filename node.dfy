/** The element tree the reader produces (xml::Node) and its property accessors. */
module XmlNode {
  import opened XmlBase

  /** One attribute of a start tag as written: its name and its value. */
  type Attr = (string, string)

  /** An element: its name, its property map, its text content and its
      children in source order. */
  datatype Node = Node(name: string, properties: map<string, string>, content: string, children: seq<Node>)
  {
    /** Node::hasProp. */
    predicate HasProp(key: string)
    {
      key in properties
    }

    /** Node::getProp(name, fallbackValue): the stored value, or the fallback. */
    function GetProp(key: string, fallback: string): (v: string)
      ensures HasProp(key) ==> v == properties[key]
      ensures !HasProp(key) ==> v == fallback
    {
      if !HasProp(key) then fallback else properties[key]
    }

    /** Node::getProp(name): the stored value, or an error when it is absent. */
    function GetRequiredProp(key: string): (r: Result<string>)
      ensures r.Ok? <==> HasProp(key)
      ensures r.Ok? ==> r.value == properties[key]
      ensures r.Err? ==> r.error == MissingProperty(key)
    {
      if !HasProp(key) then Err(MissingProperty(key)) else Ok(properties[key])
    }
  }

  /** The property map a start tag yields when its attributes are stored one
      after the other, each store replacing an earlier one of the same name. */
  function PropsOf(attrs: seq<Attr>): map<string, string>
  {
    if attrs == [] then map[]
    else
      var last := attrs[|attrs| - 1];
      PropsOf(attrs[..|attrs| - 1])[last.0 := last.1]
  }

  /** The keys are exactly the attribute names written. */
  lemma {:induction false} PropsOfKeys(attrs: seq<Attr>)
    ensures PropsOf(attrs).Keys == set k | 0 <= k < |attrs| :: attrs[k].0
  {
    if attrs != [] {
      var front := attrs[..|attrs| - 1];
      PropsOfKeys(front);
      var want := set k | 0 <= k < |attrs| :: attrs[k].0;
      var had := set k | 0 <= k < |front| :: front[k].0;
      assert want == had + {attrs[|attrs| - 1].0} by {
        forall x | x in want ensures x in had + {attrs[|attrs| - 1].0} {
          var k :| 0 <= k < |attrs| && attrs[k].0 == x;
          if k < |front| { assert front[k].0 == x; }
        }
        forall x | x in had ensures x in want {
          var k :| 0 <= k < |front| && front[k].0 == x;
          assert attrs[k].0 == x;
        }
      }
    }
  }

  /** A name written several times keeps the value of its last occurrence. */
  lemma {:induction false} PropsOfLast(attrs: seq<Attr>, k: nat)
    requires k < |attrs|
    requires forall m :: k < m < |attrs| ==> attrs[m].0 != attrs[k].0
    ensures attrs[k].0 in PropsOf(attrs) && PropsOf(attrs)[attrs[k].0] == attrs[k].1
  {
    if k < |attrs| - 1 {
      var front := attrs[..|attrs| - 1];
      assert front[k] == attrs[k];
      forall m | k < m < |front| ensures front[m].0 != front[k].0 {
        assert front[m] == attrs[m];
      }
      PropsOfLast(front, k);
    }
  }

  /** The accessors of a node whose properties come from a list of written
      attributes: hasProp holds exactly for the names written, and both forms
      of getProp return the value written last, or the fallback or error when
      the name was never written. */
  lemma {:induction false} AccessorsOverAttrs(node: Node, attrs: seq<Attr>, key: string, fallback: string)
    requires node.properties == PropsOf(attrs)
    ensures node.HasProp(key) <==> exists k :: 0 <= k < |attrs| && attrs[k].0 == key
    ensures forall k :: 0 <= k < |attrs| && attrs[k].0 == key && (forall m :: k < m < |attrs| ==> attrs[m].0 != key) ==>
              node.GetProp(key, fallback) == attrs[k].1 && node.GetRequiredProp(key) == Ok(attrs[k].1)
    ensures (forall k :: 0 <= k < |attrs| ==> attrs[k].0 != key) ==>
              node.GetProp(key, fallback) == fallback && node.GetRequiredProp(key) == Err(MissingProperty(key))
  {
    PropsOfKeys(attrs);
    forall k | 0 <= k < |attrs| && attrs[k].0 == key && (forall m :: k < m < |attrs| ==> attrs[m].0 != key)
      ensures node.GetProp(key, fallback) == attrs[k].1
    {
      PropsOfLast(attrs, k);
    }
    if exists k :: 0 <= k < |attrs| && attrs[k].0 == key {
      var k :| 0 <= k < |attrs| && attrs[k].0 == key;
      assert key in PropsOf(attrs).Keys;
    }
  }
}
