/** The reader of XML.cpp stated as functions of the text and a cursor
    position. Each function returns the value the C routine produces and the
    position its by-reference cursor is left at, or the error it throws. The
    imperative routines of XmlReader are proved to compute exactly these. */
module XmlGrammar {
  import opened XmlBase
  import opened XmlNode

  /** skipWhites: the first position at or after i that is not white. */
  function WhiteEnd(s: string, i: nat): (j: nat)
    requires i <= |s|
    ensures i <= j <= |s|
    ensures !IsWhite(Peek(s, j))
    decreases |s| - i
  {
    if i < |s| && IsWhite(s[i]) then WhiteEnd(s, i + 1) else i
  }

  /** expect(s, w) followed by ++s: step over the character w, or fail
      naming the character found instead. */
  function Consume(s: string, i: nat, w: char): (r: Result<nat>)
    requires i <= |s| && w != NUL
    ensures r.Ok? <==> Peek(s, i) == w
    ensures r.Ok? ==> r.value == i + 1 <= |s|
    ensures r.Err? ==> r.error == Expected(w, Peek(s, i))
  {
    if Peek(s, i) != w then Err(Expected(w, Peek(s, i))) else Ok(i + 1)
  }

  /** consume(s, word): step over the whole word, or fail naming the word. */
  function ConsumeWord(s: string, i: nat, w: string): (r: Result<nat>)
    requires i <= |s|
    ensures r.Ok? ==> r.value == i + |w| <= |s|
    ensures r.Err? ==> r.error == ExpectedWord(w)
  {
    if At(s, i, w) then Ok(i + |w|) else Err(ExpectedWord(w))
  }

  /** The word is there: consume steps over it. */
  lemma {:induction false} ConsumeWordAt(s: string, i: nat, w: string)
    requires At(s, i, w)
    ensures i <= |s| && ConsumeWord(s, i, w) == Ok(i + |w|)
  {
  }

  /** consume(s, word) either advances by exactly |word|, when the characters
      there spell the word, or fails naming the word and leaves s alone. */
  lemma {:induction false} ConsumeWordSlice(s: string, i: nat, w: string)
    requires i <= |s|
    ensures ConsumeWord(s, i, w).Ok? <==> i + |w| <= |s| && s[i..i + |w|] == w
    ensures ConsumeWord(s, i, w).Ok? ==> ConsumeWord(s, i, w).value == i + |w|
    ensures ConsumeWord(s, i, w).Err? ==> ConsumeWord(s, i, w).error == ExpectedWord(w)
  {
    AtSlice(s, i, w);
  }

  /** makeString(begin, end): the characters from begin up to end, as far as
      the first NUL among them, since the copy becomes a std::string through
      its character pointer. */
  function MakeString(s: string, b: nat, e: nat): (r: string)
    requires b <= e <= |s|
    ensures |r| <= e - b
    decreases e - b
  {
    if b == e || s[b] == NUL then [] else [s[b]] + MakeString(s, b + 1, e)
  }

  /** makeString yields the longest NUL-free prefix of [b, e): the
      characters from b, stopping at end or just before a NUL. */
  lemma {:induction false} MakeStringCut(s: string, b: nat, e: nat)
    requires b <= e <= |s|
    ensures var r := MakeString(s, b, e);
            r == s[b..b + |r|] && NUL !in r && (b + |r| == e || s[b + |r|] == NUL)
    decreases e - b
  {
    if b < e && s[b] != NUL {
      MakeStringCut(s, b + 1, e);
      var r := MakeString(s, b + 1, e);
      assert s[b..b + 1 + |r|] == [s[b]] + s[b + 1..b + 1 + |r|];
    }
  }

  /** Over a range without NUL, makeString copies exactly the characters in
      [b, e); in particular it gives "" when b == e. */
  lemma {:induction false} MakeStringSlice(s: string, b: nat, e: nat)
    requires b <= e <= |s|
    requires forall k :: b <= k < e ==> s[k] != NUL
    ensures MakeString(s, b, e) == s[b..e]
    decreases e - b
  {
    if b < e {
      MakeStringSlice(s, b + 1, e);
      assert s[b..e] == [s[b]] + s[b + 1..e];
    }
  }

  /** The scan of parseString: the position of the closing quote q, where a
      backslash makes the character after it part of the value. Running into
      the terminator (the C code would read past the buffer) is an error. */
  function StringEnd(s: string, k: nat, q: char): (r: Result<nat>)
    requires k <= |s|
    ensures r.Ok? ==> k <= r.value < |s| && s[r.value] == q
    ensures r.Err? ==> r.error == UnterminatedString
    decreases |s| - k
  {
    if k == |s| then Err(UnterminatedString)
    else if s[k] == q then Ok(k)
    else if s[k] == '\\' then
      if k + 1 == |s| then Err(UnterminatedString) else StringEnd(s, k + 2, q)
    else StringEnd(s, k + 1, q)
  }

  /** parseString: a value in double quotes, or else in single quotes. */
  function ParseString(s: string, i: nat): (r: Result<(string, nat)>)
    requires i <= |s|
    ensures r.Ok? ==> i + 2 <= r.value.1 <= |s|
  {
    var q := if Peek(s, i) == '"' then '"' else '\'';
    match Consume(s, i, q)
    case Err(e) => Err(e)
    case Ok(b) =>
      match StringEnd(s, b, q)
      case Err(e) => Err(e)
      case Ok(e) => Ok((MakeString(s, b, e), e + 1))
  }

  /** The end of the run of identifier characters starting at k. */
  function NameEnd(s: string, k: nat): (e: nat)
    requires k <= |s|
    ensures k <= e <= |s|
    ensures !IsNameChar(Peek(s, e))
    decreases |s| - k
  {
    if k < |s| && IsNameChar(s[k]) then NameEnd(s, k + 1) else k
  }

  /** parseIdentifier: succeeds exactly when a letter or '_' is under the
      cursor, and then yields the longest identifier there and the position
      after it; on failure nothing is consumed. */
  function Identifier(s: string, i: nat): (r: Option<(string, nat)>)
    requires i <= |s|
    ensures r.Some? <==> IsNameStart(Peek(s, i))
    ensures r.Some? ==> i < r.value.1 <= |s| && |r.value.0| == r.value.1 - i
    ensures r.Some? ==> !IsNameChar(Peek(s, r.value.1))
  {
    if IsNameStart(Peek(s, i)) then
      var e := NameEnd(s, i + 1);
      NameEndRun(s, i + 1);
      MakeStringSlice(s, i, e);
      Some((MakeString(s, i, e), e))
    else None
  }

  /** parseProp: no attribute (Ok(None), nothing consumed) when no identifier
      starts here; otherwise name, optional whites, '=', optional whites and a
      quoted value, or an error. */
  function ParseProp(s: string, i: nat): (r: Result<Option<(Attr, nat)>>)
    requires i <= |s|
    ensures r.Ok? && r.value.Some? ==> i < r.value.value.1 <= |s|
  {
    match Identifier(s, i)
    case None => Ok(None)
    case Some((name, j)) =>
      match Consume(s, WhiteEnd(s, j), '=')
      case Err(e) => Err(e)
      case Ok(k) =>
        var v := WhiteEnd(s, k);
        if Peek(s, v) != '"' && Peek(s, v) != '\'' then
          Err(ExpectedEither('"', '\'', Peek(s, v)))
        else
          match ParseString(s, v)
          case Err(e) => Err(e)
          case Ok((value, m)) => Ok(Some(((name, value), m)))
  }

  /** The attribute loop of parseNode and parseHeader: parseProp, then
      skipWhites, until parseProp finds no attribute. The attributes read so
      far are acc; the result holds them all, in source order. */
  function ParseAttrs(s: string, i: nat, acc: seq<Attr>): (r: Result<(seq<Attr>, nat)>)
    requires i <= |s|
    ensures r.Ok? ==> i <= r.value.1 <= |s|
    ensures r.Ok? ==> acc <= r.value.0
    decreases |s| - i
  {
    match ParseProp(s, i)
    case Err(e) => Err(e)
    case Ok(None) => Ok((acc, i))
    case Ok(Some((a, j))) => ParseAttrs(s, WhiteEnd(s, j), acc + [a])
  }

  /** The scan over element text: up to the next '<' or the terminator. */
  function TextEnd(s: string, k: nat): (e: nat)
    requires k <= |s|
    ensures k <= e <= |s|
    ensures Peek(s, e) == '<' || Peek(s, e) == NUL
    decreases |s| - k
  {
    if k < |s| && s[k] != '<' && s[k] != NUL then TextEnd(s, k + 1) else k
  }

  /** The trimming of element text [b, e): trailing isspace characters are
      dropped, never going below b (see TrimEndAsWritten for the C loop). */
  function TrimEnd(s: string, b: nat, e: nat): (t: nat)
    requires b <= e <= |s|
    ensures b <= t <= e
    ensures t == b || !IsSpace(s[t - 1])
    decreases e
  {
    if e > b && IsSpace(s[e - 1]) then TrimEnd(s, b, e - 1) else e
  }

  /** The trimming loop exactly as XML.cpp writes it, with no lower bound;
      the model can only stop it at the start of the buffer. */
  function TrimEndAsWritten(s: string, e: nat): (t: nat)
    requires e <= |s|
    ensures t <= e
    decreases e
  {
    if e > 0 && IsSpace(s[e - 1]) then TrimEndAsWritten(s, e - 1) else e
  }

  /** The start tag as parseNode reads it: '<', the name, whites and the
      attributes, up to the position of what closes the tag. */
  function StartTag(s: string, i: nat): (r: Result<(string, seq<Attr>, nat)>)
    requires i <= |s|
    ensures r.Ok? ==> i < r.value.2 <= |s|
  {
    match Consume(s, i, '<')
    case Err(e) => Err(e)
    case Ok(i1) =>
      match Identifier(s, i1)
      case None => Err(MissingNodeName)
      case Some((name, j)) =>
        match ParseAttrs(s, WhiteEnd(s, j), [])
        case Err(e) => Err(e)
        case Ok((attrs, k)) => Ok((name, attrs, k))
  }

  /** parseNode: the start tag, then either "/>" or ">" followed by the
      element body. */
  function ParseNode(s: string, i: nat): (r: Result<(Node, nat)>)
    requires i <= |s|
    ensures r.Ok? ==> i < r.value.1 <= |s|
    decreases |s| - i, 0
  {
    match StartTag(s, i)
    case Err(e) => Err(e)
    case Ok((name, attrs, k)) =>
      var node := Node(name, PropsOf(attrs), "", []);
      if Peek(s, k) == '/' then
        match ConsumeWord(s, k, "/>")
        case Err(e) => Err(e)
        case Ok(m) => Ok((node, m))
      else
        match ConsumeWord(s, k, ">")
        case Err(e) => Err(e)
        case Ok(b) => ParseBody(s, b, node)
  }

  /** The end tag "</name>" at k, which must name the element being read;
      a missing name reads as the empty name. */
  function EndTag(s: string, k: nat, node: Node): (r: Result<(Node, nat)>)
    requires k + 2 <= |s|
    ensures r.Ok? ==> r.value.0 == node && k < r.value.1 <= |s|
  {
    // consume(s, "</") cannot fail here
    var (name, j) := match Identifier(s, k + 2) case None => ("", k + 2) case Some(p) => p;
    if name != node.name then Err(MismatchedEndTag(node.name, name))
    else
      match ConsumeWord(s, j, ">")
      case Err(e) => Err(e)
      case Ok(m) => Ok((node, m))
  }

  /** The body loop of parseNode, with the element built so far: skip
      whites, then look at what follows. */
  function ParseBody(s: string, i: nat, node: Node): (r: Result<(Node, nat)>)
    requires i <= |s|
    ensures r.Ok? ==> i <= r.value.1 <= |s|
    decreases |s| - i, 3
  {
    BodyAt(s, WhiteEnd(s, i), node)
  }

  /** One turn of the body loop at a non-white character: an end tag, a
      child element, the end of the text, or a run of text content. */
  function BodyAt(s: string, k: nat, node: Node): (r: Result<(Node, nat)>)
    requires k <= |s|
    ensures r.Ok? ==> k <= r.value.1 <= |s|
    decreases |s| - k, 2
  {
    if Peek(s, k) == '<' && Peek(s, k + 1) == '/' then EndTag(s, k, node)
    else if Peek(s, k) == '<' then ChildAt(s, k, node)
    else if Peek(s, k) == NUL then
      // the text ended with this element still open
      Ok((node, k))
    else ContentAt(s, k, node)
  }

  /** A child element: read it, append it, and go on with the loop. */
  function ChildAt(s: string, k: nat, node: Node): (r: Result<(Node, nat)>)
    requires k < |s|
    ensures r.Ok? ==> k < r.value.1 <= |s|
    decreases |s| - k, 1
  {
    match ParseNode(s, k)
    case Err(e) => Err(e)
    case Ok((child, j)) => ParseBody(s, j, node.(children := node.children + [child]))
  }

  /** A run of text: the element's content unless it already has one. */
  function ContentAt(s: string, k: nat, node: Node): (r: Result<(Node, nat)>)
    requires k < |s| && s[k] != '<' && s[k] != NUL
    ensures r.Ok? ==> k < r.value.1 <= |s|
    decreases |s| - k, 1
  {
    if node.content != "" then Err(TwoContents)
    else
      var e := TextEnd(s, k);
      ParseBody(s, e, node.(content := MakeString(s, k, TrimEnd(s, k, e))))
  }

  /** parseHeader: "<?xml", then "?>" at once, or a white character,
      attributes (discarded) and "?>". Ok(None) is the C routine's false. */
  function ParseHeader(s: string, i: nat): (r: Result<Option<nat>>)
    requires i <= |s|
    ensures r.Ok? && r.value.Some? ==> i < r.value.value <= |s|
  {
    match ConsumeWord(s, i, "<?xml")
    case Err(e) => Err(e)
    case Ok(j) =>
      if Peek(s, j) == '?' && Peek(s, j + 1) == '>' then Ok(Some(j + 2))
      else if !IsWhite(Peek(s, j)) then Ok(None)
      else
        match ParseAttrs(s, WhiteEnd(s, j + 1), [])
        case Err(e) => Err(e)
        case Ok((_, k)) =>
          match ConsumeWord(s, k, "?>")
          case Err(e) => Err(e)
          case Ok(m) => Ok(Some(m))
  }

  /** The top-level loop of parseXML, with the elements read so far. */
  function ParseTop(s: string, i: nat, doc: seq<Node>): (r: Result<seq<Node>>)
    requires i <= |s|
    ensures r.Ok? ==> doc <= r.value
    decreases |s| - i
  {
    if Peek(s, i) == NUL then Ok(doc)
    else
      match ParseNode(s, i)
      case Err(e) => Err(e)
      case Ok((n, j)) => ParseTop(s, WhiteEnd(s, j), doc + [n])
  }

  /** parseXML: an optional header, then the top-level elements in order. */
  function ParseXML(s: string): (r: Result<seq<Node>>)
    ensures (forall k :: 0 <= k < |s| ==> IsWhite(s[k])) ==> r == Ok([])
  {
    WhiteEndAll(s, 0);
    var start := if Peek(s, 0) == '<' && Peek(s, 1) == '?' then ParseHeader(s, 0) else Ok(Some(0));
    match start
    case Err(e) => Err(e)
    case Ok(None) => Err(BadHeader)
    case Ok(Some(i)) => ParseTop(s, WhiteEnd(s, i), [])
  }

  /** skipWhites passes over whites only. */
  lemma {:induction false} WhiteEndRun(s: string, i: nat)
    requires i <= |s|
    ensures forall k :: i <= k < WhiteEnd(s, i) ==> IsWhite(s[k])
    decreases |s| - i
  {
    if i < |s| && IsWhite(s[i]) {
      WhiteEndRun(s, i + 1);
    }
  }

  /** From a position followed by whites only, skipWhites reaches the end. */
  lemma {:induction false} WhiteEndAll(s: string, i: nat)
    requires i <= |s|
    ensures (forall k :: i <= k < |s| ==> IsWhite(s[k])) ==> WhiteEnd(s, i) == |s|
    decreases |s| - i
  {
    if i < |s| && IsWhite(s[i]) {
      WhiteEndAll(s, i + 1);
    }
  }

  /** The identifier scan passes over identifier characters only. */
  lemma {:induction false} NameEndRun(s: string, k: nat)
    requires k <= |s|
    ensures forall m :: k <= m < NameEnd(s, k) ==> IsNameChar(s[m])
    decreases |s| - k
  {
    if k < |s| && IsNameChar(s[k]) {
      NameEndRun(s, k + 1);
    }
  }

  /** parseIdentifier returns the identifier it passed over, and that text
      is a name. */
  lemma {:induction false} IdentifierName(s: string, i: nat)
    requires i <= |s| && Identifier(s, i).Some?
    ensures Identifier(s, i).value.0 == s[i..Identifier(s, i).value.1]
    ensures IsName(Identifier(s, i).value.0)
  {
    NameEndRun(s, i + 1);
    MakeStringSlice(s, i, NameEnd(s, i + 1));
  }

  /** The text scan passes over characters other than '<' and the
      terminator only. */
  lemma {:induction false} TextEndRun(s: string, k: nat)
    requires k <= |s|
    ensures forall m :: k <= m < TextEnd(s, k) ==> s[m] != '<' && s[m] != NUL
    decreases |s| - k
  {
    if k < |s| && s[k] != '<' && s[k] != NUL {
      TextEndRun(s, k + 1);
    }
  }

  /** Trimming drops isspace characters only. */
  lemma {:induction false} TrimEndRun(s: string, b: nat, e: nat)
    requires b <= e <= |s|
    ensures forall m :: TrimEnd(s, b, e) <= m < e ==> IsSpace(s[m])
    decreases e
  {
    if e > b && IsSpace(s[e - 1]) {
      TrimEndRun(s, b, e - 1);
    }
  }
}
