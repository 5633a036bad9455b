/** Element text that parseNode reads only partly or rejects, and whole
    documents: what parseHeader and parseXML make of a header followed by
    the top-level elements. */
module XmlDocument {
  import opened XmlBase
  import opened XmlNode
  import opened XmlGrammar
  import opened XmlTokens
  import opened XmlElements

  /** An element cut off before its end tag: start tag, '>', content and
      children. */
  function Unclosed(e: Elem): string
  {
    OpenTag(e.name, e.attrs) + ">" + e.content + RenderAll(e.children)
  }

  /** The pieces of an element cut off before its end tag. */
  lemma {:induction false} UnclosedText(s: string, i: nat, e: Elem, k: nat, c1: nat, c2: nat)
    requires At(s, i, Unclosed(e))
    requires k == i + |OpenTag(e.name, e.attrs)| && c1 == k + 1 + |e.content| && c2 == c1 + |RenderAll(e.children)|
    ensures At(s, i, OpenTag(e.name, e.attrs)) && k < |s| && s[k] == '>'
    ensures At(s, k + 1, e.content) && At(s, c1, RenderAll(e.children))
    ensures i + |Unclosed(e)| == c2
  {
    AtConcat(s, i, OpenTag(e.name, e.attrs) + ">" + e.content, RenderAll(e.children));
    AtConcat(s, i, OpenTag(e.name, e.attrs) + ">", e.content);
    AtConcat(s, i, OpenTag(e.name, e.attrs), ">");
    AtPeek(s, k, ">", 0);
  }

  /** Start tag, content and children are read into the node the element
      describes; the body loop then goes on with what follows them. */
  lemma {:induction false} UnclosedParts(s: string, i: nat, e: Elem, k: nat, c1: nat, c2: nat, r: Result<(Node, nat)>)
    requires WellFormed(e) && At(s, i, OpenTag(e.name, e.attrs)) && k == i + |OpenTag(e.name, e.attrs)|
    requires k < |s| && s[k] == '>' && c1 == k + 1 + |e.content| && c2 == c1 + |RenderAll(e.children)|
    requires At(s, k + 1, e.content) && At(s, c1, RenderAll(e.children))
    requires e.children == [] ==> Peek(s, c2) == '<' || Peek(s, c2) == NUL
    requires ParseBody(s, c2, ToNode(e)) == r
    ensures ParseNode(s, i) == r
  {
    var n0 := Node(e.name, PropsOf(e.attrs), "", []);
    var n1 := Node(e.name, PropsOf(e.attrs), e.content, []);
    ChildrenOf(e, n1);
    AfterContent(s, c1, e.children, c2);
    ChildrenRoundTrip(s, c1, e.children, n1, ToNode(e), c2, r);
    ContentRoundTrip(s, k + 1, e.content, n0, n1, c1, r);
    OpenRead(s, i, e.name, e.attrs, k, k + 1, n0, r);
  }

  /** parseNode over an element cut off before its end tag: whatever the
      body loop does next, it does with the node complete so far. */
  lemma {:induction false} UnclosedRead(s: string, i: nat, e: Elem, r: Result<(Node, nat)>)
    requires WellFormed(e) && At(s, i, Unclosed(e))
    requires e.children == [] ==> Peek(s, i + |Unclosed(e)|) == '<' || Peek(s, i + |Unclosed(e)|) == NUL
    requires ParseBody(s, i + |Unclosed(e)|, ToNode(e)) == r
    ensures ParseNode(s, i) == r
  {
    var k: nat := i + |OpenTag(e.name, e.attrs)|;
    var c1: nat := k + 1 + |e.content|;
    var c2: nat := c1 + |RenderAll(e.children)|;
    UnclosedText(s, i, e, k, c1, c2);
    UnclosedParts(s, i, e, k, c1, c2, r);
  }

  /** The body loop at the end of the text returns the node as it is. */
  lemma {:induction false} BodyAtEnd(s: string, m: nat, node: Node)
    requires m == |s|
    ensures ParseBody(s, m, node) == Ok((node, m))
  {
  }

  /** A text that ends while an element is still open is no error: parseNode
      returns the element read so far, with its content and children, at the
      end of the text. */
  lemma {:induction false} EndOfTextOpen(s: string, i: nat, e: Elem)
    requires WellFormed(e) && At(s, i, Unclosed(e)) && i + |Unclosed(e)| == |s|
    ensures ParseNode(s, i) == Ok((ToNode(e), |s|))
  {
    BodyAtEnd(s, |s|, ToNode(e));
    UnclosedRead(s, i, e, Ok((ToNode(e), |s|)));
  }

  /** A run of text met by the body loop of a node that has content already. */
  lemma {:induction false} SecondRun(s: string, m: nat, node: Node, extra: string)
    requires node.content != "" && At(s, m, extra)
    requires extra != [] && extra[0] != '<' && extra[0] != NUL && !IsWhite(extra[0])
    ensures ParseBody(s, m, node) == Err(TwoContents)
  {
    AtPeek(s, m, extra, 0);
    assert WhiteEnd(s, m) == m;
    assert BodyAt(s, m, node) == ContentAt(s, m, node);
  }

  /** Text, a child, then text again: the second run of text is rejected
      with "two different contents". */
  lemma {:induction false} SecondTextRejected(s: string, i: nat, e: Elem, extra: string)
    requires WellFormed(e) && e.content != "" && e.children != []
    requires extra != [] && extra[0] != '<' && extra[0] != NUL && !IsWhite(extra[0])
    requires At(s, i, Unclosed(e) + extra)
    ensures ParseNode(s, i) == Err(TwoContents)
  {
    AtConcat(s, i, Unclosed(e), extra);
    SecondRun(s, i + |Unclosed(e)|, ToNode(e), extra);
    UnclosedRead(s, i, e, Err(TwoContents));
  }

  /** An end tag naming another element is rejected, and the error names
      both the element started and the one ended. */
  lemma {:induction false} MismatchRejected(s: string, i: nat, e: Elem, other: string)
    requires WellFormed(e) && IsName(other) && other != e.name
    requires At(s, i, Unclosed(e) + CloseTag(other))
    ensures ParseNode(s, i) == Err(MismatchedEndTag(e.name, other))
  {
    var m: nat := i + |Unclosed(e)|;
    AtConcat(s, i, Unclosed(e), CloseTag(other));
    AtPeek(s, m, CloseTag(other), 0);
    BodyMismatch(s, m, ToNode(e), other);
    UnclosedRead(s, i, e, Err(MismatchedEndTag(e.name, other)));
  }

  predicate AllSpace(w: string)
  {
    forall k :: 0 <= k < |w| ==> IsSpace(w[k])
  }

  /** skipWhites from the start of a run of whites ends where it ends from
      the end of the run. */
  lemma {:induction false} WhiteEndOver(s: string, k: nat, ws: string)
    requires AllWhite(ws) && At(s, k, ws)
    ensures k + |ws| <= |s| && WhiteEnd(s, k) == WhiteEnd(s, k + |ws|)
    decreases |ws|
  {
    if ws != [] {
      assert AllWhite(ws[1..]) by {
        forall m | 0 <= m < |ws[1..]| ensures IsWhite(ws[1..][m]) {
          assert ws[1..][m] == ws[m + 1];
        }
      }
      WhiteEndOver(s, k + 1, ws[1..]);
    }
  }

  /** Whites anywhere in an element's body (before its content, between its
      children, before its end tag) are skipped. */
  lemma {:induction false} BodyWhites(s: string, k: nat, ws: string, node: Node)
    requires AllWhite(ws) && At(s, k, ws)
    ensures k + |ws| <= |s| && ParseBody(s, k, node) == ParseBody(s, k + |ws|, node)
  {
    WhiteEndOver(s, k, ws);
  }

  /** A run of text followed by spaces: the scan reaches the '<' or the
      terminator after the spaces, and the trim drops exactly the spaces. */
  lemma {:induction false} PaddedText(s: string, b: nat, c: string, sp: string, e: nat)
    requires WellFormedText(c) && c != [] && AllSpace(sp) && At(s, b, c + sp) && e == b + |c| + |sp|
    requires Peek(s, e) == '<' || Peek(s, e) == NUL
    ensures b < e <= |s| && s[b] != '<' && s[b] != NUL && !IsWhite(s[b])
    ensures TextEnd(s, b) == e && TrimEnd(s, b, e) == b + |c| && MakeString(s, b, b + |c|) == c
  {
    var t: nat := b + |c|;
    AtConcat(s, b, c, sp);
    TextRead(s, b, c);
    forall m | t <= m < e ensures IsSpace(s[m]) && s[m] != '<' && s[m] != NUL {
      AtPeek(s, t, sp, m - t);
    }
    TextEndAt(s, b, e);
    TrimEndAt(s, b, t, e);
  }

  /** The content step of the body loop with its scan and trim known. */
  lemma {:induction false} ContentStep(s: string, b: nat, node: Node, e: nat, t: nat, c: string)
    requires b < e <= |s| && s[b] != '<' && s[b] != NUL && !IsWhite(s[b]) && node.content == ""
    requires TextEnd(s, b) == e && b <= t <= e && TrimEnd(s, b, e) == t && MakeString(s, b, t) == c
    ensures BodyAt(s, b, node) == ParseBody(s, e, node.(content := c))
  {
  }

  /** Text content is stored without the whites before it and without the
      spaces after it, and the body loop goes on at the next '<' or at the
      end of the text. */
  lemma {:induction false} PaddedContent(s: string, k: nat, ws: string, c: string, sp: string, node: Node)
    requires AllWhite(ws) && WellFormedText(c) && c != [] && AllSpace(sp)
    requires At(s, k, ws + c + sp) && node.content == ""
    requires Peek(s, k + |ws| + |c| + |sp|) == '<' || Peek(s, k + |ws| + |c| + |sp|) == NUL
    ensures k + |ws| + |c| + |sp| <= |s|
    ensures ParseBody(s, k, node) == ParseBody(s, k + |ws| + |c| + |sp|, node.(content := c))
  {
    var b: nat := k + |ws|;
    var e: nat := b + |c| + |sp|;
    assert ws + c + sp == ws + (c + sp);
    AtConcat(s, k, ws, c + sp);
    PaddedText(s, b, c, sp, e);
    WhiteEndAt(s, k, ws);
    ContentStep(s, b, node, e, b + |c|, c);
  }

  /** A document as a sequence of elements, each followed by a line break. */
  function RenderDoc(es: seq<Elem>): string
    decreases es
  {
    if es == [] then "" else Render(es[0]) + "\n" + RenderDoc(es[1..])
  }

  /** A document laid out more freely: each element followed by its own
      separator, which is meant to be a run of whites. */
  function RenderSpaced(es: seq<Elem>, seps: seq<string>): string
    requires |seps| == |es|
    decreases es
  {
    if es == [] then "" else Render(es[0]) + seps[0] + RenderSpaced(es[1..], seps[1..])
  }

  function Lines(n: nat): (r: seq<string>)
    ensures |r| == n
    decreases n
  {
    if n == 0 then [] else ["\n"] + Lines(n - 1)
  }

  predicate AllWhiteSeps(seps: seq<string>)
  {
    forall k :: 0 <= k < |seps| ==> AllWhite(seps[k])
  }

  /** The line-break layout is one of the free layouts. */
  lemma {:induction false} RenderDocSpaced(es: seq<Elem>)
    ensures RenderDoc(es) == RenderSpaced(es, Lines(|es|))
    ensures AllWhiteSeps(Lines(|es|))
    decreases es
  {
    if es != [] {
      RenderDocSpaced(es[1..]);
      assert Lines(|es|)[1..] == Lines(|es| - 1);
      forall k | 0 <= k < |es| ensures AllWhite(Lines(|es|)[k]) {
        if k > 0 {
          assert Lines(|es|)[k] == Lines(|es| - 1)[k - 1];
        }
      }
    }
  }

  /** The rest of a document starts with '<' and a name, or is empty. */
  lemma {:induction false} DocHead(s: string, j: nat, es: seq<Elem>, seps: seq<string>)
    requires |seps| == |es| && forall k :: 0 <= k < |es| ==> WellFormed(es[k])
    requires At(s, j, RenderSpaced(es, seps)) && j + |RenderSpaced(es, seps)| == |s|
    ensures Peek(s, j) == NUL || (Peek(s, j) == '<' && IsNameStart(Peek(s, j + 1)))
  {
    if es != [] {
      AtConcat(s, j, Render(es[0]) + seps[0], RenderSpaced(es[1..], seps[1..]));
      AtConcat(s, j, Render(es[0]), seps[0]);
      RenderHead(s, j, es[0]);
    }
  }

  lemma {:induction false} NodesCons(doc: seq<Node>, es: seq<Elem>)
    requires es != []
    ensures doc + [ToNode(es[0])] + ToNodes(es[1..]) == doc + ToNodes(es)
  {
    assert ToNodes(es) == [ToNode(es[0])] + ToNodes(es[1..]);
  }

  /** An element of a document, and the whites after it. */
  lemma {:induction false} TopElement(s: string, i: nat, e: Elem, j: nat, sep: string)
    requires WellFormed(e) && At(s, i, Render(e)) && j == i + |Render(e)|
    requires AllWhite(sep) && At(s, j, sep) && !IsWhite(Peek(s, j + |sep|))
    ensures i < |s| && s[i] == '<' && j + |sep| <= |s|
    ensures ParseNode(s, i) == Ok((ToNode(e), j)) && WhiteEnd(s, j) == j + |sep|
  {
    NodeRoundTrip(s, i, e);
    RenderHead(s, i, e);
    WhiteEndAt(s, j, sep);
  }

  /** One turn of the top-level loop: an element, then the whites after it. */
  lemma {:induction false} TopStep(s: string, i: nat, node: Node, j: nat, n: nat, doc: seq<Node>, r: Result<seq<Node>>)
    requires i < |s| && s[i] == '<' && j <= n <= |s|
    requires ParseNode(s, i) == Ok((node, j)) && WhiteEnd(s, j) == n
    requires ParseTop(s, n, doc + [node]) == r
    ensures ParseTop(s, i, doc) == r
  {
  }

  /** The top-level loop reads a document's elements, appending them in
      order, whatever whites separate them. */
  lemma {:induction false} TopRoundTrip(s: string, i: nat, es: seq<Elem>, seps: seq<string>, doc: seq<Node>)
    requires |seps| == |es| && AllWhiteSeps(seps) && forall k :: 0 <= k < |es| ==> WellFormed(es[k])
    requires At(s, i, RenderSpaced(es, seps)) && i + |RenderSpaced(es, seps)| == |s|
    ensures ParseTop(s, i, doc) == Ok(doc + ToNodes(es))
    decreases es, 1
  {
    if es == [] {
      assert doc + ToNodes(es) == doc;
    } else {
      AtConcat(s, i, Render(es[0]) + seps[0], RenderSpaced(es[1..], seps[1..]));
      AtConcat(s, i, Render(es[0]), seps[0]);
      TopCons(s, i, es, seps, doc, i + |Render(es[0])|);
    }
  }

  lemma {:induction false} TopCons(s: string, i: nat, es: seq<Elem>, seps: seq<string>, doc: seq<Node>, j: nat)
    requires es != [] && |seps| == |es| && AllWhiteSeps(seps) && forall k :: 0 <= k < |es| ==> WellFormed(es[k])
    requires At(s, i, Render(es[0])) && j == i + |Render(es[0])| && At(s, j, seps[0])
    requires At(s, j + |seps[0]|, RenderSpaced(es[1..], seps[1..]))
    requires j + |seps[0]| + |RenderSpaced(es[1..], seps[1..])| == |s|
    ensures ParseTop(s, i, doc) == Ok(doc + ToNodes(es))
    decreases es, 0
  {
    var n: nat := j + |seps[0]|;
    DocHead(s, n, es[1..], seps[1..]);
    TopRoundTrip(s, n, es[1..], seps[1..], doc + [ToNode(es[0])]);
    NodesCons(doc, es);
    TopElement(s, i, es[0], j, seps[0]);
    TopStep(s, i, ToNode(es[0]), j, n, doc, Ok(doc + ToNodes(es)));
  }

  /** parseXML reads a document without a header back as its elements, in
      order: whites before the first element and after each are skipped. */
  lemma {:induction false} XMLSpacedRoundTrip(s: string, lead: string, es: seq<Elem>, seps: seq<string>)
    requires |seps| == |es| && AllWhiteSeps(seps) && AllWhite(lead)
    requires forall k :: 0 <= k < |es| ==> WellFormed(es[k])
    requires s == lead + RenderSpaced(es, seps)
    ensures ParseXML(s) == Ok(ToNodes(es))
  {
    var n: nat := |lead|;
    AtWhole(s);
    AtConcat(s, 0, lead, RenderSpaced(es, seps));
    DocHead(s, n, es, seps);
    if lead != [] {
      AtPeek(s, 0, lead, 0);
    }
    WhiteEndAt(s, 0, lead);
    TopRoundTrip(s, n, es, seps, []);
    assert [] + ToNodes(es) == ToNodes(es);
    NoHeaderStart(s, n, Ok(ToNodes(es)));
  }

  /** parseXML on a text that does not start with "<?": the top-level loop
      after the leading whites. */
  lemma {:induction false} NoHeaderStart(s: string, n: nat, r: Result<seq<Node>>)
    requires !(Peek(s, 0) == '<' && Peek(s, 1) == '?')
    requires n <= |s| && WhiteEnd(s, 0) == n && ParseTop(s, n, []) == r
    ensures ParseXML(s) == r
  {
  }

  /** parseXML on a text with a header: the top-level loop after the
      header and the whites that follow it. */
  lemma {:induction false} HeaderStart(s: string, h: nat, n: nat, r: Result<seq<Node>>)
    requires Peek(s, 0) == '<' && Peek(s, 1) == '?' && ParseHeader(s, 0) == Ok(Some(h))
    requires h <= n <= |s| && WhiteEnd(s, h) == n && ParseTop(s, n, []) == r
    ensures ParseXML(s) == r
  {
  }

  /** The same for the line-break layout, which the writer produces. */
  lemma {:induction false} XMLRoundTrip(s: string, es: seq<Elem>)
    requires forall k :: 0 <= k < |es| ==> WellFormed(es[k])
    requires s == RenderDoc(es)
    ensures ParseXML(s) == Ok(ToNodes(es))
  {
    RenderDocSpaced(es);
    assert s == "" + RenderSpaced(es, Lines(|es|));
    XMLSpacedRoundTrip(s, "", es, Lines(|es|));
  }

  /** A header in any layout parseHeader accepts: "<?xml", the attributes
      with the whites before each and around each '=', the whites before
      "?>", then "?>". A white must follow "<?xml" unless "?>" does. */
  function HeaderText(xs: seq<SpacedAttr>, trail: string): string
  {
    "<?xml" + SpacedAttrsText(xs) + trail + "?>"
  }

  /** parseHeader accepts "<?xml?>", and "<?xml" followed by whites, any
      attributes with their whites and "?>"; it reads the attributes, drops
      them, and stops after "?>". */
  lemma {:induction false} HeaderRoundTrip(s: string, i: nat, xs: seq<SpacedAttr>, trail: string)
    requires SeparatedAttrs(xs, trail) && At(s, i, HeaderText(xs, trail))
    ensures ParseHeader(s, i) == Ok(Some(i + |HeaderText(xs, trail)|))
  {
    var j: nat := i + 5;
    var mid := SpacedAttrsText(xs) + trail;
    var k: nat := j + |mid|;
    HeaderParts(s, i, xs, trail, j, k);
    if mid == [] {
      HeaderShort(s, i, j);
    } else {
      SeparatedOpensWhite(xs, trail);
      AtPeek(s, j, mid, 0);
      HeaderAttrsAt(s, i, xs, trail, j, k);
    }
  }

  /** The three parts of a header, located in the text. */
  lemma {:induction false} HeaderParts(s: string, i: nat, xs: seq<SpacedAttr>, trail: string, j: nat, k: nat)
    requires At(s, i, HeaderText(xs, trail)) && j == i + 5 && k == j + |SpacedAttrsText(xs) + trail|
    ensures At(s, i, "<?xml") && At(s, j, SpacedAttrsText(xs) + trail) && At(s, k, "?>")
    ensures Peek(s, k) == '?' && Peek(s, k + 1) == '>' && k + 2 == i + |HeaderText(xs, trail)|
  {
    var mid := SpacedAttrsText(xs) + trail;
    assert HeaderText(xs, trail) == "<?xml" + mid + "?>";
    AtConcat(s, i, "<?xml" + mid, "?>");
    AtConcat(s, i, "<?xml", mid);
    AtPeek(s, k, "?>", 0);
    AtPeek(s, k, "?>", 1);
  }

  /** A header with something between "<?xml" and "?>": the white, then the
      attribute loop, then "?>". */
  lemma {:induction false} HeaderAttrsAt(s: string, i: nat, xs: seq<SpacedAttr>, trail: string, j: nat, k: nat)
    requires SeparatedAttrs(xs, trail) && j == i + 5 && k == j + |SpacedAttrsText(xs)| + |trail|
    requires At(s, i, "<?xml") && At(s, j, SpacedAttrsText(xs) + trail) && At(s, k, "?>")
    requires j < |s| && IsWhite(s[j])
    ensures ParseHeader(s, i) == Ok(Some(k + 2))
  {
    AtPeek(s, k, "?>", 0);
    SpacedAttrsComplete(s, j, xs, trail, [], k);
    assert [] + AttrsOf(xs) == AttrsOf(xs);
    ConsumeWordAt(s, i, "<?xml");
    ConsumeWordAt(s, k, "?>");
    HeaderLong(s, i, j, AttrsOf(xs), k);
  }

  lemma {:induction false} HeaderShort(s: string, i: nat, j: nat)
    requires At(s, i, "<?xml") && j == i + 5 && Peek(s, j) == '?' && Peek(s, j + 1) == '>'
    ensures ParseHeader(s, i) == Ok(Some(j + 2))
  {
    ConsumeWordAt(s, i, "<?xml");
  }

  /** The attributes of a header: a white first, then the attribute loop. */
  lemma {:induction false} HeaderLong(s: string, i: nat, j: nat, attrs: seq<Attr>, k: nat)
    requires i <= |s| && ConsumeWord(s, i, "<?xml") == Ok(j) && j < |s| && IsWhite(s[j])
    requires k <= |s| && AttrsFrom(s, j, []) == Ok((attrs, k))
    requires ConsumeWord(s, k, "?>") == Ok(k + 2)
    ensures ParseHeader(s, i) == Ok(Some(k + 2))
  {
  }

  /** "<?xml" followed by neither a white nor "?>" is no header, and
      parseXML rejects the document. */
  lemma {:induction false} BadHeaderRejected(s: string)
    requires At(s, 0, "<?xml") && !IsWhite(Peek(s, 5)) && !(Peek(s, 5) == '?' && Peek(s, 6) == '>')
    ensures ParseXML(s) == Err(BadHeader)
  {
    AtPeek(s, 0, "<?xml", 0);
    AtPeek(s, 0, "<?xml", 1);
  }

  /** parseXML reads a document with a header back as its elements, in
      order, whatever whites follow the header and each element. */
  lemma {:induction false} XMLWithHeaderRoundTrip(s: string, xs: seq<SpacedAttr>, trail: string, lead: string, es: seq<Elem>, seps: seq<string>)
    requires SeparatedAttrs(xs, trail)
    requires |seps| == |es| && AllWhiteSeps(seps) && AllWhite(lead)
    requires forall k :: 0 <= k < |es| ==> WellFormed(es[k])
    requires s == HeaderText(xs, trail) + lead + RenderSpaced(es, seps)
    ensures ParseXML(s) == Ok(ToNodes(es))
  {
    AtParts(s, HeaderText(xs, trail), lead, RenderSpaced(es, seps));
    HeaderDocAt(s, xs, trail, lead, es, seps, |HeaderText(xs, trail)|, |HeaderText(xs, trail)| + |lead|);
  }

  /** XMLWithHeaderRoundTrip with the three parts located in the text: the
      header at 0, the whites at h and the elements at n. */
  lemma {:induction false} HeaderDocAt(s: string, xs: seq<SpacedAttr>, trail: string, lead: string, es: seq<Elem>, seps: seq<string>, h: nat, n: nat)
    requires SeparatedAttrs(xs, trail)
    requires |seps| == |es| && AllWhiteSeps(seps) && AllWhite(lead)
    requires forall k :: 0 <= k < |es| ==> WellFormed(es[k])
    requires h == |HeaderText(xs, trail)| && n == h + |lead| && |s| == n + |RenderSpaced(es, seps)|
    requires At(s, 0, HeaderText(xs, trail)) && At(s, h, lead) && At(s, n, RenderSpaced(es, seps))
    ensures ParseXML(s) == Ok(ToNodes(es))
  {
    HeaderAt(s, xs, trail);
    LeadAndElements(s, h, lead, es, seps, n);
    HeaderStart(s, h, n, Ok(ToNodes(es)));
  }

  /** A header at the start of the text is taken for one and read whole. */
  lemma {:induction false} HeaderAt(s: string, xs: seq<SpacedAttr>, trail: string)
    requires SeparatedAttrs(xs, trail)
    requires At(s, 0, HeaderText(xs, trail))
    ensures Peek(s, 0) == '<' && Peek(s, 1) == '?' && ParseHeader(s, 0) == Ok(Some(|HeaderText(xs, trail)|))
  {
    AtPeek(s, 0, HeaderText(xs, trail), 0);
    AtPeek(s, 0, HeaderText(xs, trail), 1);
    HeaderRoundTrip(s, 0, xs, trail);
  }

  /** Whites, then the elements up to the end of the text. */
  lemma {:induction false} LeadAndElements(s: string, h: nat, lead: string, es: seq<Elem>, seps: seq<string>, n: nat)
    requires |seps| == |es| && AllWhiteSeps(seps) && AllWhite(lead)
    requires forall k :: 0 <= k < |es| ==> WellFormed(es[k])
    requires n == h + |lead| && n + |RenderSpaced(es, seps)| == |s|
    requires At(s, h, lead) && At(s, n, RenderSpaced(es, seps))
    ensures n <= |s| && WhiteEnd(s, h) == n && ParseTop(s, n, []) == Ok(ToNodes(es))
  {
    DocHead(s, n, es, seps);
    WhiteEndAt(s, h, lead);
    TopFromStart(s, n, es, seps);
  }

  /** The top-level loop entered with no element read yet. */
  lemma {:induction false} TopFromStart(s: string, n: nat, es: seq<Elem>, seps: seq<string>)
    requires |seps| == |es| && AllWhiteSeps(seps) && forall k :: 0 <= k < |es| ==> WellFormed(es[k])
    requires At(s, n, RenderSpaced(es, seps)) && n + |RenderSpaced(es, seps)| == |s|
    ensures ParseTop(s, n, []) == Ok(ToNodes(es))
  {
    TopRoundTrip(s, n, es, seps, []);
    assert [] + ToNodes(es) == ToNodes(es);
  }
}
