/** Elements as they are written out, and what parseNode and parseXML make
    of the text: every well-formed element tree reads back as the node tree
    it describes. */
module XmlElements {
  import opened XmlBase
  import opened XmlNode
  import opened XmlGrammar
  import opened XmlTokens

  /** An element as written: the attributes in the order they appear. */
  datatype Elem = Elem(name: string, attrs: seq<Attr>, content: string, children: seq<Elem>)

  predicate IsLeaf(e: Elem)
  {
    e.content == "" && e.children == []
  }

  /** Text content that reads back unchanged: no '<' or terminator inside,
      nothing skipped at its start and nothing trimmed at its end. */
  predicate WellFormedText(c: string)
  {
    (forall k :: 0 <= k < |c| ==> c[k] != '<' && c[k] != NUL) &&
    (c != [] ==> !IsWhite(c[0]) && !IsSpace(c[|c| - 1]))
  }

  predicate WellFormed(e: Elem)
    decreases e
  {
    IsName(e.name) &&
    (forall k :: 0 <= k < |e.attrs| ==> WellFormedAttr(e.attrs[k])) &&
    WellFormedText(e.content) &&
    (forall k :: 0 <= k < |e.children| ==> WellFormed(e.children[k]))
  }

  function OpenTag(name: string, attrs: seq<Attr>): string
  {
    "<" + name + AttrsText(attrs)
  }

  function CloseTag(name: string): string
  {
    "</" + name + ">"
  }

  /** The text of an element: a self-closing tag when it has neither content
      nor children, otherwise start tag, content, children and end tag. */
  function Render(e: Elem): string
    decreases e
  {
    if IsLeaf(e) then OpenTag(e.name, e.attrs) + "/>"
    else OpenTag(e.name, e.attrs) + ">" + e.content + RenderAll(e.children) + CloseTag(e.name)
  }

  function RenderAll(es: seq<Elem>): string
    decreases es
  {
    if es == [] then "" else Render(es[0]) + RenderAll(es[1..])
  }

  /** The node the reader builds for an element. */
  function ToNode(e: Elem): Node
    decreases e
  {
    Node(e.name, PropsOf(e.attrs), e.content, ToNodes(e.children))
  }

  function ToNodes(es: seq<Elem>): seq<Node>
    decreases es
  {
    if es == [] then [] else [ToNode(es[0])] + ToNodes(es[1..])
  }

  /** A printed attribute list, read from an empty accumulator. */
  lemma {:induction false} AttrsRead(s: string, j: nat, attrs: seq<Attr>, k: nat)
    requires forall m :: 0 <= m < |attrs| ==> WellFormedAttr(attrs[m])
    requires At(s, j, AttrsText(attrs)) && k == j + |AttrsText(attrs)|
    requires !IsWhite(Peek(s, k)) && !IsNameStart(Peek(s, k))
    ensures j <= k <= |s|
    ensures AttrsFrom(s, j, []) == Ok((attrs, k))
  {
    AttrsComplete(s, j, attrs, []);
    assert [] + attrs == attrs;
  }

  /** '<' and a name, followed by text that cannot continue the name. */
  lemma {:induction false} TagNameAt(s: string, i: nat, name: string, rest: string, j: nat)
    requires IsName(name) && At(s, i, "<" + name + rest) && j == i + 1 + |name|
    requires rest == [] ==> !IsNameChar(Peek(s, j))
    requires rest != [] ==> !IsNameChar(rest[0])
    ensures j <= |s| && At(s, j, rest)
    ensures Consume(s, i, '<') == Ok(i + 1)
    ensures Identifier(s, i + 1) == Some((name, j))
  {
    AtConcat(s, i, "<" + name, rest);
    AtConcat(s, i, "<", name);
    AtPeek(s, i, "<", 0);
    if rest != [] {
      AtPeek(s, j, rest, 0);
    }
    NameAt(s, i + 1, name);
  }

  /** The start tag: '<', the name and the attributes are read; what
      follows decides between a self-closing tag and a body. */
  lemma {:induction false} StartTagAt(s: string, i: nat, name: string, attrs: seq<Attr>, j: nat, k: nat)
    requires IsName(name) && forall m :: 0 <= m < |attrs| ==> WellFormedAttr(attrs[m])
    requires At(s, i, OpenTag(name, attrs)) && j == i + 1 + |name| && k == j + |AttrsText(attrs)|
    requires Peek(s, k) == '/' || Peek(s, k) == '>'
    ensures i < k <= |s|
    ensures StartTag(s, i) == Ok((name, attrs, k))
  {
    TagNameAt(s, i, name, AttrsText(attrs), j);
    AttrsRead(s, j, attrs, k);
    StartTagStep(s, i, name, j, attrs, k);
  }

  /** The start tag in any layout parseNode accepts: '<', the name, then
      attributes with any whites before each (at least one before the
      first) and around each '=', either quote, and whites before the '/'
      or '>'. The attributes are read in order. */
  lemma {:induction false} StartTagSpaced(s: string, i: nat, name: string, xs: seq<SpacedAttr>, trail: string, k: nat)
    requires IsName(name) && SeparatedAttrs(xs, trail)
    requires At(s, i, "<" + name + (SpacedAttrsText(xs) + trail)) && k == i + 1 + |name| + |SpacedAttrsText(xs)| + |trail|
    requires Peek(s, k) == '/' || Peek(s, k) == '>'
    ensures i < k <= |s|
    ensures StartTag(s, i) == Ok((name, AttrsOf(xs), k))
  {
    var j: nat := i + 1 + |name|;
    var rest := SpacedAttrsText(xs) + trail;
    SeparatedOpensWhite(xs, trail);
    TagNameAt(s, i, name, rest, j);
    SpacedAttrsComplete(s, j, xs, trail, [], k);
    assert [] + AttrsOf(xs) == AttrsOf(xs);
    StartTagStep(s, i, name, j, AttrsOf(xs), k);
  }

  lemma {:induction false} StartTagStep(s: string, i: nat, name: string, j: nat, attrs: seq<Attr>, k: nat)
    requires i < j <= |s| && Consume(s, i, '<') == Ok(i + 1) && Identifier(s, i + 1) == Some((name, j))
    requires AttrsFrom(s, j, []) == Ok((attrs, k))
    ensures StartTag(s, i) == Ok((name, attrs, k))
  {
  }

  lemma {:induction false} ConsumeOne(s: string, k: nat, c: char)
    requires k < |s| && s[k] == c
    ensures ConsumeWord(s, k, [c]) == Ok(k + 1)
  {
    assert s[k..k + 1] == [c];
    AtSlice(s, k, [c]);
  }

  lemma {:induction false} ConsumeTwo(s: string, k: nat, c: char, d: char)
    requires k + 1 < |s| && s[k] == c && s[k + 1] == d
    ensures ConsumeWord(s, k, [c, d]) == Ok(k + 2)
  {
    assert s[k..k + 2] == [c, d];
    AtSlice(s, k, [c, d]);
  }

  /** parseNode on a self-closing tag. */
  lemma {:induction false} ParseNodeLeaf(s: string, i: nat, name: string, attrs: seq<Attr>, k: nat, node: Node, m: nat)
    requires i < k && k + 1 < |s| && s[k] == '/' && s[k + 1] == '>' && StartTag(s, i) == Ok((name, attrs, k))
    requires node == Node(name, PropsOf(attrs), "", []) && m == k + 2
    ensures ParseNode(s, i) == Ok((node, m))
  {
    ConsumeTwo(s, k, '/', '>');
  }

  /** parseNode on a start tag closed by '>': the body loop takes over with
      the new node, still without content or children. */
  lemma {:induction false} ParseNodeOpen(s: string, i: nat, name: string, attrs: seq<Attr>, k: nat, b: nat, n0: Node, r: Result<(Node, nat)>)
    requires i < k < |s| && s[k] == '>' && StartTag(s, i) == Ok((name, attrs, k)) && b == k + 1
    requires n0 == Node(name, PropsOf(attrs), "", []) && ParseBody(s, b, n0) == r
    ensures ParseNode(s, i) == r
  {
    ConsumeOne(s, k, '>');
  }

  /** The body loop at a character that is not white turns once there. */
  lemma {:induction false} BodyEnter(s: string, k: nat, node: Node)
    requires k < |s| && !IsWhite(s[k])
    ensures ParseBody(s, k, node) == BodyAt(s, k, node)
  {
  }

  /** A run of text that reads back unchanged ends at the next '<', and
      nothing is trimmed from it. */
  lemma {:induction false} TextRunAt(s: string, b: nat, c: string, e: nat)
    requires WellFormedText(c) && c != [] && At(s, b, c) && e == b + |c| && (Peek(s, e) == '<' || Peek(s, e) == NUL)
    ensures b < e <= |s| && s[b] == c[0] && !IsWhite(s[b])
    ensures TextEnd(s, b) == e && TrimEnd(s, b, e) == e && MakeString(s, b, e) == c
  {
    TextRead(s, b, c);
    TextEndAt(s, b, e);
    TrimEndAt(s, b, e, e);
  }

  /** Where well-formed text is written: its characters, its first and last
      one, and the string makeString copies out of it. */
  lemma {:induction false} TextRead(s: string, b: nat, c: string)
    requires WellFormedText(c) && At(s, b, c)
    ensures b + |c| <= |s| && MakeString(s, b, b + |c|) == c
    ensures forall m :: b <= m < b + |c| ==> s[m] != '<' && s[m] != NUL
    ensures c != [] ==> s[b] == c[0] && !IsWhite(s[b]) && !IsSpace(s[b + |c| - 1])
  {
    TextChars(s, b, c);
    MakeStringSlice(s, b, b + |c|);
    AtSlice(s, b, c);
    if c != [] {
      AtPeek(s, b, c, 0);
      AtPeek(s, b, c, |c| - 1);
    }
  }

  /** The trim stops right after the last character that is not a space. */
  lemma {:induction false} TrimEndAt(s: string, b: nat, t: nat, e: nat)
    requires b <= t <= e <= |s|
    requires forall m :: t <= m < e ==> IsSpace(s[m])
    requires t == b || !IsSpace(s[t - 1])
    ensures TrimEnd(s, b, e) == t
    decreases e - t
  {
    if t < e {
      TrimEndAt(s, b, t, e - 1);
    }
  }


  /** Text that reads back unchanged holds no '<' and no terminator where it
      is written. */
  lemma {:induction false} TextChars(s: string, b: nat, c: string)
    requires WellFormedText(c) && At(s, b, c)
    ensures b + |c| <= |s|
    ensures forall m :: b <= m < b + |c| ==> s[m] != '<' && s[m] != NUL
  {
    AtSlice(s, b, c);
    forall m | b <= m < b + |c| ensures s[m] != '<' && s[m] != NUL {
      AtPeek(s, b, c, m - b);
    }
  }

  lemma {:induction false} TextEndAt(s: string, b: nat, e: nat)
    requires b <= e <= |s|
    requires forall m :: b <= m < e ==> s[m] != '<' && s[m] != NUL
    requires Peek(s, e) == '<' || Peek(s, e) == NUL
    ensures TextEnd(s, b) == e
    decreases e - b
  {
    if b < e {
      TextEndAt(s, b + 1, e);
    }
  }

  /** The content step on a run of text whose scan and trim are known. */
  lemma {:induction false} ContentRead(s: string, b: nat, c: string, node: Node, e: nat, n1: Node)
    requires b < e <= |s| && s[b] != '<' && s[b] != NUL && !IsWhite(s[b]) && node.content == ""
    requires TextEnd(s, b) == e && TrimEnd(s, b, e) == e && MakeString(s, b, e) == c
    requires n1 == node.(content := c)
    ensures BodyAt(s, b, node) == ParseBody(s, e, n1)
  {
  }

  /** The body loop over a run of text: it becomes the node's content. */
  lemma {:induction false} BodyContent(s: string, b: nat, c: string, node: Node, e: nat, n1: Node, r: Result<(Node, nat)>)
    requires WellFormedText(c) && c != [] && At(s, b, c) && e == b + |c| && (Peek(s, e) == '<' || Peek(s, e) == NUL)
    requires node.content == "" && n1 == node.(content := c) && ParseBody(s, e, n1) == r
    ensures ParseBody(s, b, node) == r
  {
    TextRunAt(s, b, c, e);
    BodyEnter(s, b, node);
    ContentRead(s, b, c, node, e, n1);
  }

  /** The child step on an element that parseNode reads. */
  lemma {:induction false} ChildRead(s: string, k: nat, node: Node, child: Node, j: nat, n1: Node)
    requires k < |s| && s[k] == '<' && Peek(s, k + 1) != '/'
    requires j <= |s| && ParseNode(s, k) == Ok((child, j))
    requires n1 == node.(children := node.children + [child])
    ensures BodyAt(s, k, node) == ParseBody(s, j, n1)
  {
  }

  /** The body loop over a child element: the child is appended. */
  lemma {:induction false} BodyChild(s: string, i: nat, node: Node, child: Node, j: nat, n1: Node, r: Result<(Node, nat)>)
    requires i < |s| && s[i] == '<' && Peek(s, i + 1) != '/'
    requires j <= |s| && ParseNode(s, i) == Ok((child, j))
    requires n1 == node.(children := node.children + [child]) && ParseBody(s, j, n1) == r
    ensures ParseBody(s, i, node) == r
  {
    BodyEnter(s, i, node);
    ChildRead(s, i, node, child, j, n1);
  }

  /** The body loop at the node's own end tag: the node is complete. */
  lemma {:induction false} BodyEnd(s: string, m: nat, node: Node, e: nat, r: Result<(Node, nat)>)
    requires IsName(node.name) && At(s, m, CloseTag(node.name)) && e == m + |node.name| + 3
    requires r == Ok((node, e))
    ensures e <= |s|
    ensures ParseBody(s, m, node) == r
  {
    EndTagAt(s, m, node.name);
  }

  /** The body loop at an end tag of another name: the error names both. */
  lemma {:induction false} BodyMismatch(s: string, m: nat, node: Node, name: string)
    requires IsName(name) && name != node.name && At(s, m, CloseTag(name))
    ensures ParseBody(s, m, node) == Err(MismatchedEndTag(node.name, name))
  {
    EndTagAt(s, m, name);
  }

  /** The body loop at "</" and the element's name not followed by '>':
      the word ">" is reported missing. */
  lemma {:induction false} BodyEndUnclosed(s: string, m: nat, node: Node)
    requires IsName(node.name) && At(s, m, "</" + node.name)
    requires !IsNameChar(Peek(s, m + 2 + |node.name|)) && Peek(s, m + 2 + |node.name|) != '>'
    ensures ParseBody(s, m, node) == Err(ExpectedWord(">"))
  {
    AtConcat(s, m, "</", node.name);
    AtPeek(s, m, "</", 0);
    AtPeek(s, m, "</", 1);
    NameAt(s, m + 2, node.name);
    var j: nat := m + 2 + |node.name|;
    assert !At(s, j, ">");
  }

  lemma {:induction false} EndTagAt(s: string, m: nat, name: string)
    requires IsName(name) && At(s, m, CloseTag(name))
    ensures m + |name| + 3 <= |s|
    ensures WhiteEnd(s, m) == m && Peek(s, m) == '<' && Peek(s, m + 1) == '/'
    ensures Identifier(s, m + 2) == Some((name, m + 2 + |name|))
    ensures ConsumeWord(s, m + 2 + |name|, ">") == Ok(m + |name| + 3)
  {
    AtConcat(s, m, "</" + name, ">");
    AtConcat(s, m, "</", name);
    AtPeek(s, m, "</", 0);
    AtPeek(s, m, "</", 1);
    AtPeek(s, m + 2 + |name|, ">", 0);
    NameAt(s, m + 2, name);
  }

  /** Every rendered element starts with '<' and its name. */
  lemma {:induction false} RenderHead(s: string, i: nat, e: Elem)
    requires IsName(e.name) && At(s, i, Render(e))
    ensures i + 1 < |s| && s[i] == '<' && Peek(s, i + 1) != '/' && IsNameStart(Peek(s, i + 1))
  {
    var w := "<" + e.name;
    if IsLeaf(e) {
      AtConcat(s, i, OpenTag(e.name, e.attrs), "/>");
    } else {
      AtConcat(s, i, OpenTag(e.name, e.attrs) + ">" + e.content + RenderAll(e.children), CloseTag(e.name));
      AtConcat(s, i, OpenTag(e.name, e.attrs) + ">" + e.content, RenderAll(e.children));
      AtConcat(s, i, OpenTag(e.name, e.attrs) + ">", e.content);
      AtConcat(s, i, OpenTag(e.name, e.attrs), ">");
    }
    AtConcat(s, i, w, AttrsText(e.attrs));
    AtPeek(s, i, w, 0);
    AtPeek(s, i, w, 1);
  }

  /** The pieces of a self-closing tag. */
  lemma {:induction false} LeafText(s: string, i: nat, e: Elem, k: nat)
    requires IsLeaf(e) && At(s, i, Render(e)) && k == i + |OpenTag(e.name, e.attrs)|
    ensures At(s, i, OpenTag(e.name, e.attrs)) && k + 1 < |s| && s[k] == '/' && s[k + 1] == '>'
    ensures i + |Render(e)| == k + 2
  {
    AtConcat(s, i, OpenTag(e.name, e.attrs), "/>");
    AtPeek(s, k, "/>", 0);
    AtPeek(s, k, "/>", 1);
  }

  lemma {:induction false} LeafNode(e: Elem)
    requires IsLeaf(e)
    ensures ToNode(e) == Node(e.name, PropsOf(e.attrs), "", [])
  {
  }

  /** The pieces of an element with a body. */
  lemma {:induction false} OpenText(s: string, i: nat, e: Elem, k: nat, c1: nat, c2: nat)
    requires !IsLeaf(e) && At(s, i, Render(e))
    requires k == i + |OpenTag(e.name, e.attrs)| && c1 == k + 1 + |e.content| && c2 == c1 + |RenderAll(e.children)|
    ensures At(s, i, OpenTag(e.name, e.attrs)) && k < |s| && s[k] == '>'
    ensures At(s, k + 1, e.content) && At(s, c1, RenderAll(e.children)) && At(s, c2, CloseTag(e.name))
    ensures i + |Render(e)| == c2 + |e.name| + 3
  {
    AtConcat(s, i, OpenTag(e.name, e.attrs) + ">" + e.content + RenderAll(e.children), CloseTag(e.name));
    AtConcat(s, i, OpenTag(e.name, e.attrs) + ">" + e.content, RenderAll(e.children));
    AtConcat(s, i, OpenTag(e.name, e.attrs) + ">", e.content);
    AtConcat(s, i, OpenTag(e.name, e.attrs), ">");
    AtPeek(s, k, ">", 0);
  }

  /** The text after a start tag: content, children and the end tag are
      read into the node the start tag began. */
  lemma {:induction false} BodyRoundTrip(s: string, b: nat, e: Elem, c1: nat, c2: nat, n0: Node, r: Result<(Node, nat)>)
    requires WellFormed(e)
    requires At(s, b, e.content) && At(s, c1, RenderAll(e.children)) && At(s, c2, CloseTag(e.name))
    requires c1 == b + |e.content| && c2 == c1 + |RenderAll(e.children)|
    requires n0 == Node(e.name, PropsOf(e.attrs), "", []) && r == Ok((ToNode(e), c2 + |e.name| + 3))
    ensures ParseBody(s, b, n0) == r
    decreases e, 0
  {
    var n1 := Node(e.name, PropsOf(e.attrs), e.content, []);
    BodyEnd(s, c2, ToNode(e), c2 + |e.name| + 3, r);
    ChildrenOf(e, n1);
    AtPeek(s, c2, CloseTag(e.name), 0);
    AfterContent(s, c1, e.children, c2);
    ChildrenRoundTrip(s, c1, e.children, n1, ToNode(e), c2, r);
    ContentRoundTrip(s, b, e.content, n0, n1, c1, r);
  }

  /** After the content comes a child, or whatever follows the children:
      a '<' or the end of the text either way. */
  lemma {:induction false} AfterContent(s: string, c1: nat, es: seq<Elem>, c2: nat)
    requires forall k :: 0 <= k < |es| ==> WellFormed(es[k])
    requires At(s, c1, RenderAll(es)) && c2 == c1 + |RenderAll(es)|
    requires es == [] ==> Peek(s, c2) == '<' || Peek(s, c2) == NUL
    ensures Peek(s, c1) == '<' || Peek(s, c1) == NUL
  {
    if es != [] {
      AtConcat(s, c1, Render(es[0]), RenderAll(es[1..]));
      RenderHead(s, c1, es[0]);
    }
  }

  /** The node the body loop holds after content and children is ToNode(e). */
  lemma {:induction false} ChildrenOf(e: Elem, n1: Node)
    requires n1 == Node(e.name, PropsOf(e.attrs), e.content, [])
    ensures ToNode(e) == n1.(children := n1.children + ToNodes(e.children))
  {
    assert [] + ToNodes(e.children) == ToNodes(e.children);
  }

  /** The content step, or no step when the element has no content. */
  lemma {:induction false} ContentRoundTrip(s: string, b: nat, c: string, n0: Node, n1: Node, c1: nat, r: Result<(Node, nat)>)
    requires WellFormedText(c) && At(s, b, c) && c1 == b + |c| && (Peek(s, c1) == '<' || Peek(s, c1) == NUL)
    requires n0.content == "" && n1 == n0.(content := c) && ParseBody(s, c1, n1) == r
    ensures ParseBody(s, b, n0) == r
  {
    if c != [] {
      BodyContent(s, b, c, n0, c1, n1, r);
    } else {
      BodySame(s, b, n0, c1, n1, r);
    }
  }

  /** The body loop started at the same place with the same node. */
  lemma {:induction false} BodySame(s: string, i: nat, node: Node, m: nat, target: Node, r: Result<(Node, nat)>)
    requires i <= |s| && m == i && target == node && ParseBody(s, m, target) == r
    ensures ParseBody(s, i, node) == r
  {
  }

  /** The body loop reads a run of rendered elements as children, appended
      in order, and goes on after them. */
  lemma {:induction false} ChildrenRoundTrip(s: string, i: nat, es: seq<Elem>, node: Node, target: Node, m: nat, r: Result<(Node, nat)>)
    requires forall k :: 0 <= k < |es| ==> WellFormed(es[k])
    requires At(s, i, RenderAll(es)) && m == i + |RenderAll(es)|
    requires target == node.(children := node.children + ToNodes(es))
    requires ParseBody(s, m, target) == r
    ensures ParseBody(s, i, node) == r
    decreases es, 1
  {
    if es == [] {
      NoChildren(node, es, target);
      BodySame(s, i, node, m, target, r);
    } else {
      AtConcat(s, i, Render(es[0]), RenderAll(es[1..]));
      ChildrenCons(s, i, es, node, target, m, r);
    }
  }

  lemma {:induction false} NoChildren(node: Node, es: seq<Elem>, target: Node)
    requires es == [] && target == node.(children := node.children + ToNodes(es))
    ensures target == node
  {
    assert node.children + ToNodes(es) == node.children;
  }

  lemma {:induction false} ChildrenCons(s: string, i: nat, es: seq<Elem>, node: Node, target: Node, m: nat, r: Result<(Node, nat)>)
    requires es != [] && forall k :: 0 <= k < |es| ==> WellFormed(es[k])
    requires At(s, i, Render(es[0])) && At(s, i + |Render(es[0])|, RenderAll(es[1..]))
    requires m == i + |Render(es[0])| + |RenderAll(es[1..])|
    requires target == node.(children := node.children + ToNodes(es))
    requires ParseBody(s, m, target) == r
    ensures ParseBody(s, i, node) == r
    decreases es, 0
  {
    var node1 := node.(children := node.children + [ToNode(es[0])]);
    ChildrenJoin(node, es, node1, target);
    ChildrenRoundTrip(s, i + |Render(es[0])|, es[1..], node1, target, m, r);
    ChildStep(s, i, es[0], node, node1, i + |Render(es[0])|, r);
  }

  /** One rendered child, read by the body loop and appended. */
  lemma {:induction false} ChildStep(s: string, i: nat, e: Elem, node: Node, node1: Node, j: nat, r: Result<(Node, nat)>)
    requires WellFormed(e) && At(s, i, Render(e)) && j == i + |Render(e)| && j <= |s|
    requires node1 == node.(children := node.children + [ToNode(e)]) && ParseBody(s, j, node1) == r
    ensures ParseBody(s, i, node) == r
    decreases e, 5
  {
    NodeRoundTrip(s, i, e);
    RenderHead(s, i, e);
    BodyChild(s, i, node, ToNode(e), j, node1, r);
  }

  lemma {:induction false} ChildrenJoin(node: Node, es: seq<Elem>, node1: Node, target: Node)
    requires es != [] && node1 == node.(children := node.children + [ToNode(es[0])])
    requires target == node.(children := node.children + ToNodes(es))
    ensures target == node1.(children := node1.children + ToNodes(es[1..]))
  {
    assert node.children + [ToNode(es[0])] + ToNodes(es[1..]) == node.children + ToNodes(es);
  }


  /** A start tag followed by "/>" is read as a node without content or
      children. */
  lemma {:induction false} LeafRead(s: string, i: nat, name: string, attrs: seq<Attr>, k: nat, node: Node, m: nat)
    requires IsName(name) && forall n :: 0 <= n < |attrs| ==> WellFormedAttr(attrs[n])
    requires At(s, i, OpenTag(name, attrs)) && k == i + |OpenTag(name, attrs)|
    requires k + 1 < |s| && s[k] == '/' && s[k + 1] == '>'
    requires node == Node(name, PropsOf(attrs), "", []) && m == k + 2
    ensures ParseNode(s, i) == Ok((node, m))
  {
    StartTagAt(s, i, name, attrs, i + 1 + |name|, k);
    ParseNodeLeaf(s, i, name, attrs, k, node, m);
  }

  /** A start tag followed by '>' hands over to the body loop. */
  lemma {:induction false} OpenRead(s: string, i: nat, name: string, attrs: seq<Attr>, k: nat, b: nat, n0: Node, r: Result<(Node, nat)>)
    requires IsName(name) && forall n :: 0 <= n < |attrs| ==> WellFormedAttr(attrs[n])
    requires At(s, i, OpenTag(name, attrs)) && k == i + |OpenTag(name, attrs)|
    requires k < |s| && s[k] == '>' && b == k + 1
    requires n0 == Node(name, PropsOf(attrs), "", []) && ParseBody(s, b, n0) == r
    ensures ParseNode(s, i) == r
  {
    StartTagAt(s, i, name, attrs, i + 1 + |name|, k);
    ParseNodeOpen(s, i, name, attrs, k, b, n0, r);
  }

  /** An element with a body reads back as the node it describes. */
  lemma {:induction false} OpenAt(s: string, i: nat, e: Elem, m: nat)
    requires WellFormed(e) && !IsLeaf(e) && At(s, i, Render(e)) && m == i + |Render(e)|
    ensures m <= |s| && ParseNode(s, i) == Ok((ToNode(e), m))
    decreases e, 2
  {
    var k: nat := i + |OpenTag(e.name, e.attrs)|;
    var c1: nat := k + 1 + |e.content|;
    var c2: nat := c1 + |RenderAll(e.children)|;
    OpenText(s, i, e, k, c1, c2);
    OpenParts(s, i, e, k, c1, c2, m);
  }

  /** The start tag, then the body: content, children and end tag. */
  lemma {:induction false} OpenParts(s: string, i: nat, e: Elem, k: nat, c1: nat, c2: nat, m: nat)
    requires WellFormed(e) && At(s, i, OpenTag(e.name, e.attrs)) && k == i + |OpenTag(e.name, e.attrs)|
    requires k < |s| && s[k] == '>' && c1 == k + 1 + |e.content| && c2 == c1 + |RenderAll(e.children)|
    requires At(s, k + 1, e.content) && At(s, c1, RenderAll(e.children)) && At(s, c2, CloseTag(e.name))
    requires m == c2 + |e.name| + 3
    ensures ParseNode(s, i) == Ok((ToNode(e), m))
    decreases e, 1
  {
    var b: nat := k + 1;
    var n0 := Node(e.name, PropsOf(e.attrs), "", []);
    var r: Result<(Node, nat)> := Ok((ToNode(e), m));
    BodyRoundTrip(s, b, e, c1, c2, n0, r);
    OpenRead(s, i, e.name, e.attrs, k, b, n0, r);
  }

  /** parseNode reads every well-formed rendered element back as the node it
      describes, and stops right after it. */
  lemma {:induction false} NodeRoundTrip(s: string, i: nat, e: Elem)
    requires WellFormed(e) && At(s, i, Render(e))
    ensures i + |Render(e)| <= |s|
    ensures ParseNode(s, i) == Ok((ToNode(e), i + |Render(e)|))
    decreases e, 4
  {
    if IsLeaf(e) {
      LeafRoundTrip(s, i, e);
    } else {
      OpenAt(s, i, e, i + |Render(e)|);
    }
  }

  /** A self-closing tag reads back as a node without content or children. */
  lemma {:induction false} LeafRoundTrip(s: string, i: nat, e: Elem)
    requires WellFormed(e) && IsLeaf(e) && At(s, i, Render(e))
    ensures i + |Render(e)| <= |s|
    ensures ParseNode(s, i) == Ok((ToNode(e), i + |Render(e)|))
  {
    var k: nat := i + |OpenTag(e.name, e.attrs)|;
    LeafText(s, i, e, k);
    LeafNode(e);
    LeafRead(s, i, e.name, e.attrs, k, ToNode(e), i + |Render(e)|);
  }
}
