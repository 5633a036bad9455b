/** The reader routines of XML.cpp in their own imperative form: a cursor
    that loops step by step over the text. The C routines take the cursor by
    reference (char *&s); here each takes the cursor position and returns the
    position it is left at. Each routine is proved to compute exactly the
    corresponding function of XmlGrammar. */
module XmlReader {
  import opened XmlBase
  import opened XmlNode
  import G = XmlGrammar

  /** skipWhites. */
  method SkipWhites(s: string, i: nat) returns (j: nat)
    requires i <= |s|
    ensures j == G.WhiteEnd(s, i)
  {
    j := i;
    while IsWhite(Peek(s, j))
      invariant i <= j <= |s|
      invariant G.WhiteEnd(s, j) == G.WhiteEnd(s, i)
      decreases |s| - j
    {
      j := j + 1;
    }
  }

  /** consume(s, word): one character at a time; any mismatch is reported
      as the whole word missing. */
  method ConsumeWord(s: string, i: nat, w: string) returns (r: Result<nat>)
    requires i <= |s|
    requires NUL !in w
    ensures r == G.ConsumeWord(s, i, w)
  {
    var k := 0;
    while k < |w|
      invariant k <= |w| && i + k <= |s|
      invariant s[i..i + k] == w[..k]
    {
      var c := G.Consume(s, i + k, w[k]);
      if c.Err? {
        assert !At(s, i, w) by {
          if At(s, i, w) { AtPeek(s, i, w, k); }
        }
        return Err(ExpectedWord(w));
      }
      assert s[i..i + k + 1] == s[i..i + k] + [s[i + k]];
      k := k + 1;
    }
    AtSlice(s, i, w);
    return Ok(i + k);
  }

  /** parseString: the quote under the cursor decides the closing quote; a
      backslash makes the following character part of the value. */
  method ParseString(s: string, i: nat) returns (r: Result<(string, nat)>)
    requires i <= |s|
    ensures r == G.ParseString(s, i)
  {
    var q := if Peek(s, i) == '"' then '"' else '\'';
    var c := G.Consume(s, i, q);
    if c.Err? {
      return Err(c.error);
    }
    var b := c.value;
    var k := b;
    while Peek(s, k) != q
      invariant b <= k <= |s|
      invariant G.StringEnd(s, k, q) == G.StringEnd(s, b, q)
      decreases |s| - k
    {
      if k == |s| {
        // the C loop would step over the terminator
        return Err(UnterminatedString);
      }
      if s[k] == '\\' {
        k := k + 1;
        if k == |s| {
          return Err(UnterminatedString);
        }
      }
      k := k + 1;
    }
    // the closing consume(s, q) cannot fail: q is under the cursor
    return Ok((G.MakeString(s, b, k), k + 1));
  }

  /** parseIdentifier: found is the C result; on failure the cursor stays. */
  method ParseIdentifier(s: string, i: nat) returns (found: bool, name: string, j: nat)
    requires i <= |s|
    ensures found ==> G.Identifier(s, i) == Some((name, j))
    ensures !found ==> G.Identifier(s, i) == None && j == i
  {
    j := i;
    name := "";
    if IsNameStart(Peek(s, j)) {
      j := j + 1;
      while IsNameChar(Peek(s, j))
        invariant i < j <= |s|
        invariant G.NameEnd(s, j) == G.NameEnd(s, i + 1)
        decreases |s| - j
      {
        j := j + 1;
      }
      name := G.MakeString(s, i, j);
      found := true;
    } else {
      found := false;
    }
  }

  /** parseProp: Ok(None) is the C result false. */
  method ParseProp(s: string, i: nat) returns (r: Result<Option<(Attr, nat)>>)
    requires i <= |s|
    ensures r == G.ParseProp(s, i)
  {
    var found, name, j := ParseIdentifier(s, i);
    if !found {
      return Ok(None);
    }
    j := SkipWhites(s, j);
    var c := G.Consume(s, j, '=');
    if c.Err? {
      return Err(c.error);
    }
    j := SkipWhites(s, c.value);
    if Peek(s, j) != '"' && Peek(s, j) != '\'' {
      return Err(ExpectedEither('"', '\'', Peek(s, j)));
    }
    var v := ParseString(s, j);
    if v.Err? {
      return Err(v.error);
    }
    return Ok(Some(((name, v.value.0), v.value.1)));
  }

  /** The attribute loop of parseNode and parseHeader: while parseProp
      finds an attribute, store it into the property map (replacing an
      earlier value of the same name) and skip whites. */
  method ParseAttrs(s: string, i: nat) returns (r: Result<(map<string, string>, nat)>)
    requires i <= |s|
    ensures G.ParseAttrs(s, i, []).Err? ==> r == Err(G.ParseAttrs(s, i, []).error)
    ensures G.ParseAttrs(s, i, []).Ok? ==>
              r == Ok((PropsOf(G.ParseAttrs(s, i, []).value.0), G.ParseAttrs(s, i, []).value.1))
  {
    var props: map<string, string> := map[];
    ghost var attrs: seq<Attr> := [];
    var pos := i;
    var p := ParseProp(s, pos);
    while p.Ok? && p.value.Some?
      invariant pos <= |s|
      invariant p == G.ParseProp(s, pos)
      invariant props == PropsOf(attrs)
      invariant G.ParseAttrs(s, pos, attrs) == G.ParseAttrs(s, i, [])
      decreases |s| - pos
    {
      var (a, j) := p.value.value;
      props := props[a.0 := a.1];
      attrs := attrs + [a];
      pos := SkipWhites(s, j);
      p := ParseProp(s, pos);
    }
    if p.Err? {
      return Err(p.error);
    }
    return Ok((props, pos));
  }

  /** The text-content step of parseNode: scan to the next '<' or the
      terminator, then trim trailing isspace characters (never below the
      start of the text; see TrimEndAsWritten). */
  method ScanText(s: string, begin: nat) returns (next: nat, end: nat)
    requires begin <= |s|
    ensures next == G.TextEnd(s, begin)
    ensures end == G.TrimEnd(s, begin, next)
  {
    next := begin;
    while Peek(s, next) != '<' && Peek(s, next) != NUL
      invariant begin <= next <= |s|
      invariant G.TextEnd(s, next) == G.TextEnd(s, begin)
      decreases |s| - next
    {
      next := next + 1;
    }
    end := next;
    while end > begin && IsSpace(s[end - 1])
      invariant begin <= end <= next
      invariant G.TrimEnd(s, begin, end) == G.TrimEnd(s, begin, next)
    {
      end := end - 1;
    }
  }

  /** parseNode: reads the start tag, storing each attribute into the
      property map as it is read, then loops over the body, appending each
      child element as it is read. */
  method ParseNode(s: string, i: nat) returns (r: Result<(Node, nat)>)
    requires i <= |s|
    ensures r == G.ParseNode(s, i)
    decreases |s| - i, 0
  {
    var c := G.Consume(s, i, '<');
    if c.Err? {
      return Err(c.error);
    }
    var found, name, pos := ParseIdentifier(s, c.value);
    if !found {
      return Err(MissingNodeName);
    }
    pos := SkipWhites(s, pos);

    var attrs := ParseAttrs(s, pos);
    if attrs.Err? {
      return Err(attrs.error);
    }
    var props;
    props, pos := attrs.value.0, attrs.value.1;

    var node := Node(name, props, "", []);
    if Peek(s, pos) == '/' {
      var w := ConsumeWord(s, pos, "/>");
      if w.Err? {
        return Err(w.error);
      }
      return Ok((node, w.value));
    }
    var w := ConsumeWord(s, pos, ">");
    if w.Err? {
      return Err(w.error);
    }
    r := ParseBody(s, w.value, node);
  }

  /** The end-tag step of the body loop: "</", the name (empty when none
      is there), which must be the element's own, and the word ">". */
  method EndTag(s: string, k: nat, node: Node) returns (r: Result<(Node, nat)>)
    requires k + 2 <= |s|
    ensures r == G.EndTag(s, k, node)
  {
    var endName := "";
    var found, name, j := ParseIdentifier(s, k + 2);
    if found {
      endName := name;
    }
    if endName != node.name {
      return Err(MismatchedEndTag(node.name, endName));
    }
    var c := ConsumeWord(s, j, ">");
    if c.Err? {
      return Err(c.error);
    }
    return Ok((node, c.value));
  }

  /** The body loop of parseNode (while (1) { ... }) for the element being
      read: skip whites, then an end tag, a child element, the end of the
      text, or a run of text content. */
  method ParseBody(s: string, i: nat, element: Node) returns (r: Result<(Node, nat)>)
    requires i <= |s|
    ensures r == G.ParseBody(s, i, element)
    decreases |s| - i, 1
  {
    var pos, node := i, element;
    while true
      invariant i <= pos <= |s|
      invariant G.ParseBody(s, pos, node) == G.ParseBody(s, i, element)
      decreases |s| - pos
    {
      var k := SkipWhites(s, pos);
      assert G.ParseBody(s, pos, node) == G.BodyAt(s, k, node);
      if Peek(s, k) == '<' && Peek(s, k + 1) == '/' {
        r := EndTag(s, k, node);
        return;
      } else if Peek(s, k) == '<' {
        assert G.BodyAt(s, k, node) == G.ChildAt(s, k, node);
        var child := ParseNode(s, k);
        if child.Err? {
          return Err(child.error);
        }
        node := node.(children := node.children + [child.value.0]);
        pos := child.value.1;
      } else if Peek(s, k) == NUL {
        // the text ended with this element still open
        return Ok((node, k));
      } else {
        assert G.BodyAt(s, k, node) == G.ContentAt(s, k, node);
        if node.content != "" {
          return Err(TwoContents);
        }
        var next, end := ScanText(s, k);
        node := node.(content := G.MakeString(s, k, end));
        pos := next;
      }
    }
  }

  /** parseHeader: Ok(None) is the C result false. */
  method ParseHeader(s: string, i: nat) returns (r: Result<Option<nat>>)
    requires i <= |s|
    ensures r == G.ParseHeader(s, i)
  {
    var w := ConsumeWord(s, i, "<?xml");
    if w.Err? {
      return Err(w.error);
    }
    var pos := w.value;
    if Peek(s, pos) == '?' && Peek(s, pos + 1) == '>' {
      // consume(s, "?>") cannot fail here
      return Ok(Some(pos + 2));
    }
    if !IsWhite(Peek(s, pos)) {
      return Ok(None);
    }
    pos := SkipWhites(s, pos + 1);

    // the header's attributes are read and dropped
    var attrs := ParseAttrs(s, pos);
    if attrs.Err? {
      return Err(attrs.error);
    }
    ghost var start := pos;
    pos := attrs.value.1;
    assert G.ParseAttrs(s, start, []).Ok? && pos == G.ParseAttrs(s, start, []).value.1;
    w := ConsumeWord(s, pos, "?>");
    if w.Err? {
      return Err(w.error);
    }
    return Ok(Some(w.value));
  }

  /** parseXML: the header when the text starts with "<?", then every
      top-level element, appended to the document in order. */
  method ParseXML(s: string) returns (r: Result<seq<Node>>)
    ensures r == G.ParseXML(s)
  {
    var pos := 0;
    if Peek(s, 0) == '<' && Peek(s, 1) == '?' {
      var h := ParseHeader(s, 0);
      if h.Err? {
        return Err(h.error);
      }
      if h.value.None? {
        return Err(BadHeader);
      }
      pos := h.value.value;
    }
    pos := SkipWhites(s, pos);

    var doc: seq<Node> := [];
    ghost var topStart := pos;
    while Peek(s, pos) != NUL
      invariant pos <= |s|
      invariant G.ParseTop(s, pos, doc) == G.ParseTop(s, topStart, [])
      decreases |s| - pos
    {
      var n := ParseNode(s, pos);
      if n.Err? {
        return Err(n.error);
      }
      doc := doc + [n.value.0];
      pos := SkipWhites(s, n.value.1);
    }
    return Ok(doc);
  }
}
