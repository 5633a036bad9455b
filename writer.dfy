/** xml::Writer: the stack of open elements and the text written so far.
    The output file is modelled as the characters appended to it. */
module XmlWriter {
  import opened XmlBase
  import opened XmlNode
  import opened XmlGrammar
  import opened XmlTokens
  import opened XmlElements
  import opened XmlDocument

  /** Writer::State: the type of an open element and whether content has
      been written into it. */
  datatype State = State(nodeType: string, hasContent: bool)

  /** What spaces() prints at a given depth: two spaces per open element. */
  function Indent(depth: nat): string
    decreases depth
  {
    if depth == 0 then "" else Indent(depth - 1) + "  "
  }

  /** The indentation is whites only, two per level, so the reader skips it. */
  lemma {:induction false} IndentWhite(depth: nat)
    ensures |Indent(depth)| == 2 * depth
    ensures forall k :: 0 <= k < |Indent(depth)| ==> Indent(depth)[k] == ' '
    ensures AllWhite(Indent(depth))
    decreases depth
  {
    if depth > 0 {
      IndentWhite(depth - 1);
      var prev := Indent(depth - 1);
      assert Indent(depth) == prev + "  ";
      forall k | 0 <= k < |Indent(depth)| ensures Indent(depth)[k] == ' ' {
        if k < |prev| {
          assert Indent(depth)[k] == prev[k];
        }
      }
    }
  }

  class Writer {
    /** The open elements, innermost last. */
    var state: seq<State>
    /** Everything written to the file so far. */
    var out: string

    constructor ()
      ensures state == [] && out == ""
    {
      state := [];
      out := "";
    }

    /** spaces(): two spaces for every open element. */
    method Spaces()
      modifies this
      ensures state == old(state)
      ensures out == old(out) + Indent(|state|)
    {
      var i := 0;
      while i < |state|
        invariant 0 <= i <= |state|
        invariant state == old(state) && out == old(out) + Indent(i)
      {
        out := out + "  ";
        i := i + 1;
      }
    }

    /** writeProperty(name, value): one attribute of the innermost open
        element, which may not have content yet; the value is written as is. */
    method WriteProperty(name: string, value: string)
      requires state != [] && !state[|state| - 1].hasContent
      modifies this
      ensures state == old(state)
      ensures out == old(out) + AttrText((name, value))
    {
      out := out + " " + name + "=\"" + value + "\"";
      assert old(out) + AttrText((name, value)) == old(out) + " " + name + "=\"" + value + "\"";
    }

    /** openNode(type): the indentation, '<' and the type; the element is
        pushed, without content. */
    method OpenNode(nodeType: string)
      modifies this
      ensures state == old(state) + [State(nodeType, false)]
      ensures out == old(out) + Indent(|old(state)|) + "<" + nodeType
    {
      Spaces();
      out := out + "<" + nodeType;
      state := state + [State(nodeType, false)];
    }

    /** closeNode(): the end tag of the innermost open element when it has
        content, otherwise "/>" and a line break; the element is popped. */
    method CloseNode()
      requires state != []
      modifies this
      ensures state == old(state)[..|old(state)| - 1]
      ensures old(state)[|old(state)| - 1].hasContent ==>
                out == old(out) + CloseTag(old(state)[|old(state)| - 1].nodeType)
      ensures !old(state)[|old(state)| - 1].hasContent ==> out == old(out) + "/>\n"
    {
      var top := state[|state| - 1];
      if top.hasContent {
        out := out + "</" + top.nodeType + ">";
      } else {
        out := out + "/>\n";
      }
      state := state[..|state| - 1];
    }

    /** An element without content at the current depth, written as the
        library's clients write one: openNode, one writeProperty per
        attribute in order, closeNode. */
    method WriteLeaf(name: string, attrs: seq<Attr>)
      modifies this
      ensures state == old(state)
      ensures out == old(out) + Indent(|old(state)|) + "<" + name + AttrsText(attrs) + "/>\n"
    {
      OpenNode(name);
      ghost var head := out;
      var k := 0;
      while k < |attrs|
        invariant 0 <= k <= |attrs|
        invariant state == old(state) + [State(name, false)]
        invariant out + AttrsText(attrs[k..]) == head + AttrsText(attrs)
      {
        assert attrs[k..][1..] == attrs[k + 1..];
        WriteProperty(attrs[k].0, attrs[k].1);
        k := k + 1;
      }
      assert attrs[k..] == [];
      CloseNode();
    }

    /** A run of top-level elements without content, one WriteLeaf each.
        What is written is WrittenLeaves, and when the elements are well
        formed it reads back with parseXML as their nodes, in order. */
    method WriteLeaves(es: seq<Elem>)
      requires state == []
      modifies this
      ensures state == []
      ensures out == old(out) + WrittenLeaves(es)
      ensures (forall k :: 0 <= k < |es| ==> WellFormed(es[k]) && IsLeaf(es[k])) ==>
                ParseXML(WrittenLeaves(es)) == Ok(ToNodes(es))
    {
      var k := 0;
      while k < |es|
        invariant 0 <= k <= |es|
        invariant state == []
        invariant out + WrittenLeaves(es[k..]) == old(out) + WrittenLeaves(es)
      {
        WrittenLeavesStep(es, k);
        ghost var line := Indent(0) + "<" + es[k].name + AttrsText(es[k].attrs) + "/>\n";
        ghost var before := out;
        WriteLeaf(es[k].name, es[k].attrs);
        assert out == before + line;
        assert out + WrittenLeaves(es[k + 1..]) == before + (line + WrittenLeaves(es[k + 1..]));
        k := k + 1;
      }
      assert es[k..] == [];
      if forall k :: 0 <= k < |es| ==> WellFormed(es[k]) && IsLeaf(es[k]) {
        WrittenLeavesParse(es);
      }
    }
  }

  /** The text written for a run of top-level elements without content:
      for each, openNode at depth zero, one writeProperty per attribute and
      closeNode. */
  function WrittenLeaves(es: seq<Elem>): string
    decreases es
  {
    if es == [] then ""
    else Indent(0) + "<" + es[0].name + AttrsText(es[0].attrs) + "/>\n" + WrittenLeaves(es[1..])
  }

  /** That text is the document of those elements. */
  lemma {:induction false} WrittenLeavesText(es: seq<Elem>)
    requires forall k :: 0 <= k < |es| ==> IsLeaf(es[k])
    ensures WrittenLeaves(es) == RenderDoc(es)
    decreases es
  {
    if es != [] {
      WrittenLeavesText(es[1..]);
      assert Indent(0) + "<" + es[0].name + AttrsText(es[0].attrs) == OpenTag(es[0].name, es[0].attrs);
    }
  }

  /** One step of WriteLeaves: the text for es[k..] is the line of es[k],
      then the text for es[k + 1..]. */
  lemma {:induction false} WrittenLeavesStep(es: seq<Elem>, k: nat)
    requires k < |es|
    ensures WrittenLeaves(es[k..]) == Indent(0) + "<" + es[k].name + AttrsText(es[k].attrs) + "/>\n" + WrittenLeaves(es[k + 1..])
  {
    assert es[k..][1..] == es[k + 1..];
  }

  /** The text written for top-level elements without content reads back as
      their nodes. */
  lemma {:induction false} WrittenLeavesParse(es: seq<Elem>)
    requires forall k :: 0 <= k < |es| ==> WellFormed(es[k]) && IsLeaf(es[k])
    ensures ParseXML(WrittenLeaves(es)) == Ok(ToNodes(es))
  {
    WrittenLeavesText(es);
    XMLRoundTrip(WrittenLeaves(es), es);
  }

  /** The nodes of a run of elements, one by one. */
  lemma {:induction false} NodesOf(es: seq<Elem>)
    ensures |ToNodes(es)| == |es|
    ensures forall k :: 0 <= k < |es| ==> ToNodes(es)[k] == ToNode(es[k])
    decreases es
  {
    if es != [] {
      NodesOf(es[1..]);
      forall k | 0 <= k < |es| ensures ToNodes(es)[k] == ToNode(es[k]) {
        if k > 0 {
          assert ToNodes(es)[k] == ToNodes(es[1..])[k - 1];
        }
      }
    }
  }

  /** The text written for top-level elements without content reads back
      with parseXML as those elements, in order, each with the attributes it
      was written with and neither content nor children. */
  lemma {:induction false} WrittenLeavesReadBack(es: seq<Elem>)
    requires forall k :: 0 <= k < |es| ==> WellFormed(es[k]) && IsLeaf(es[k])
    ensures ParseXML(WrittenLeaves(es)).Ok?
    ensures |ParseXML(WrittenLeaves(es)).value| == |es|
    ensures forall k :: 0 <= k < |es| ==>
              ParseXML(WrittenLeaves(es)).value[k] == Node(es[k].name, PropsOf(es[k].attrs), "", [])
  {
    WrittenLeavesText(es);
    XMLRoundTrip(WrittenLeaves(es), es);
    NodesOf(es);
    forall k | 0 <= k < |es|
      ensures ToNode(es[k]) == Node(es[k].name, PropsOf(es[k].attrs), "", [])
    {
      assert ToNodes(es[k].children) == [];
    }
  }
}
