/** What the token readers of XML.cpp accept and what they return: names,
    runs of whites, quoted values and single attributes. */
module XmlTokens {
  import opened XmlBase
  import opened XmlNode
  import opened XmlGrammar

  predicate IsQuote(q: char)
  {
    q == '"' || q == '\''
  }

  /** A value that reads back unchanged from between quotes q: each
      backslash protects the character after it, and q occurs only so
      protected. Backslashes are kept, not decoded. */
  predicate QuotedBody(v: string, q: char)
    decreases |v|
  {
    if v == [] then true
    else if v[0] == '\\' then |v| >= 2 && QuotedBody(v[2..], q)
    else v[0] != q && QuotedBody(v[1..], q)
  }

  function Quoted(v: string, q: char): string
  {
    [q] + v + [q]
  }

  predicate AllWhite(w: string)
  {
    forall k :: 0 <= k < |w| ==> IsWhite(w[k])
  }

  /** The identifier scan stops exactly at the first non-identifier character. */
  lemma {:induction false} NameEndAt(s: string, k: nat, e: nat)
    requires k <= e <= |s| && !IsNameChar(Peek(s, e))
    requires forall m :: k <= m < e ==> IsNameChar(s[m])
    ensures NameEnd(s, k) == e
    decreases e - k
  {
    if k < e {
      NameEndAt(s, k + 1, e);
    }
  }

  /** A name followed by a character that cannot continue it is read whole. */
  lemma {:induction false} NameAt(s: string, i: nat, w: string)
    requires IsName(w) && At(s, i, w) && !IsNameChar(Peek(s, i + |w|))
    ensures Identifier(s, i) == Some((w, i + |w|))
  {
    AtPeek(s, i, w, 0);
    forall m | i + 1 <= m < i + |w| ensures IsNameChar(s[m]) {
      AtPeek(s, i, w, m - i);
    }
    NameEndAt(s, i + 1, i + |w|);
    MakeStringSlice(s, i, i + |w|);
    AtSlice(s, i, w);
  }

  /** skipWhites stops exactly at the first non-white character. */
  lemma {:induction false} WhiteEndStops(s: string, k: nat, e: nat)
    requires k <= e <= |s| && !IsWhite(Peek(s, e))
    requires forall m :: k <= m < e ==> IsWhite(s[m])
    ensures WhiteEnd(s, k) == e
    decreases e - k
  {
    if k < e {
      WhiteEndStops(s, k + 1, e);
    }
  }

  /** A run of whites followed by a non-white is skipped exactly. */
  lemma {:induction false} WhiteEndAt(s: string, i: nat, ws: string)
    requires AllWhite(ws) && At(s, i, ws) && !IsWhite(Peek(s, i + |ws|))
    ensures WhiteEnd(s, i) == i + |ws|
  {
    forall m | i <= m < i + |ws| ensures IsWhite(s[m]) {
      AtPeek(s, i, ws, m - i);
    }
    WhiteEndStops(s, i, i + |ws|);
  }

  /** Whatever the closing-quote scan accepts is a well-escaped value. */
  lemma {:induction false} StringEndSound(s: string, k: nat, q: char)
    requires k <= |s| && StringEnd(s, k, q).Ok?
    ensures QuotedBody(s[k..StringEnd(s, k, q).value], q)
    decreases |s| - k
  {
    var e := StringEnd(s, k, q).value;
    if s[k] == q {
      assert s[k..e] == [];
    } else if s[k] == '\\' {
      StringEndSound(s, k + 2, q);
      assert s[k..e][2..] == s[k + 2..e];
    } else {
      StringEndSound(s, k + 1, q);
      assert s[k..e][1..] == s[k + 1..e];
    }
  }

  /** A well-escaped value followed by its quote is scanned to that quote. */
  lemma {:induction false} StringEndComplete(s: string, k: nat, v: string, q: char)
    requires IsQuote(q) && QuotedBody(v, q) && At(s, k, v + [q])
    ensures StringEnd(s, k, q) == Ok(k + |v|)
    decreases |v|
  {
    AtPeek(s, k, v + [q], 0);
    if v != [] {
      if v[0] == '\\' {
        AtDrop(s, k, v + [q], 2);
        assert (v + [q])[2..] == v[2..] + [q];
        StringEndComplete(s, k + 2, v[2..], q);
      } else {
        AtDrop(s, k, v + [q], 1);
        assert (v + [q])[1..] == v[1..] + [q];
        StringEndComplete(s, k + 1, v[1..], q);
      }
    } else {
      assert s[k] == q;
    }
  }

  /** parseString accepts only a quote followed by a well-escaped text and
      the same quote, and leaves the cursor just after that quote. Its value
      is that text as far as its first NUL (makeString), backslashes kept;
      for a text without NUL it is the whole text between the quotes. */
  lemma {:induction false} ParseStringSound(s: string, i: nat)
    requires i <= |s| && ParseString(s, i).Ok?
    ensures i < |s| && IsQuote(s[i])
    ensures var (v, j) := ParseString(s, i).value;
            i + 2 <= j <= |s| && s[j - 1] == s[i] && QuotedBody(s[i + 1..j - 1], s[i]) &&
            i + 1 + |v| <= j - 1 && v == s[i + 1..i + 1 + |v|] && NUL !in v &&
            (i + 1 + |v| == j - 1 || s[i + 1 + |v|] == NUL)
    ensures var (v, j) := ParseString(s, i).value;
            NUL !in s[i + 1..j - 1] ==> v == s[i + 1..j - 1] && At(s, i, Quoted(v, s[i]))
  {
    var q := s[i];
    var e := StringEnd(s, i + 1, q).value;
    var v := ParseString(s, i).value.0;
    StringEndSound(s, i + 1, q);
    MakeStringCut(s, i + 1, e);
    if NUL !in s[i + 1..e] {
      assert s[i..e + 1] == [q] + s[i + 1..e] + [q];
      AtSlice(s, i, Quoted(v, q));
    }
  }

  lemma {:induction false} QuotedAt(s: string, i: nat, v: string, q: char)
    requires At(s, i, Quoted(v, q))
    ensures Peek(s, i) == q && At(s, i + 1, v + [q]) && s[i + 1..i + 1 + |v|] == v
  {
    AtPeek(s, i, Quoted(v, q), 0);
    AtDrop(s, i, Quoted(v, q), 1);
    assert Quoted(v, q)[1..] == v + [q];
    AtConcat(s, i + 1, v, [q]);
    AtSlice(s, i + 1, v);
  }

  /** Conversely every quoted, well-escaped value without NUL is read back
      unchanged. */
  lemma {:induction false} ParseStringComplete(s: string, i: nat, v: string, q: char)
    requires IsQuote(q) && QuotedBody(v, q) && NUL !in v && At(s, i, Quoted(v, q))
    ensures ParseString(s, i) == Ok((v, i + |v| + 2))
  {
    QuotedAt(s, i, v, q);
    StringEndComplete(s, i + 1, v, q);
    forall k | i + 1 <= k < i + 1 + |v| ensures s[k] != NUL {
      assert s[k] == v[k - i - 1];
    }
    MakeStringSlice(s, i + 1, i + 1 + |v|);
  }

  /** parseProp reports "no attribute" exactly when no identifier starts at
      the cursor. */
  lemma {:induction false} ParsePropAbsent(s: string, i: nat)
    requires i <= |s|
    ensures ParseProp(s, i) == Ok(None) <==> !IsNameStart(Peek(s, i))
  {
  }

  lemma {:induction false} PropTextAt(s: string, i: nat, name: string, ws1: string, ws2: string, v: string, q: char)
    requires IsName(name) && AllWhite(ws1) && IsQuote(q)
    requires At(s, i, name + ws1 + "=" + ws2 + Quoted(v, q))
    ensures At(s, i, name) && !IsNameChar(Peek(s, i + |name|))
    ensures At(s, i + |name|, ws1) && Peek(s, i + |name| + |ws1|) == '='
    ensures At(s, i + |name| + |ws1| + 1, ws2)
    ensures At(s, i + |name| + |ws1| + 1 + |ws2|, Quoted(v, q))
    ensures Peek(s, i + |name| + |ws1| + 1 + |ws2|) == q
  {
    var p4 := i + |name| + |ws1| + 1 + |ws2|;
    AtConcat(s, i, name + ws1 + "=" + ws2, Quoted(v, q));
    AtConcat(s, i, name + ws1 + "=", ws2);
    AtConcat(s, i, name + ws1, "=");
    AtConcat(s, i, name, ws1);
    AtPeek(s, p4, Quoted(v, q), 0);
    AtPeek(s, i + |name| + |ws1|, "=", 0);
    if ws1 != [] {
      AtPeek(s, i + |name|, ws1, 0);
    }
  }

  /** parseProp assembled from the results of its steps. */
  lemma {:induction false} ParsePropSteps(s: string, i: nat, name: string, p1: nat, p2: nat, p3: nat, p4: nat, v: string, m: nat)
    requires i <= |s| && p1 <= |s| && p2 <= |s| && p3 <= |s| && p4 <= |s|
    requires Identifier(s, i) == Some((name, p1)) && WhiteEnd(s, p1) == p2 && Consume(s, p2, '=') == Ok(p3)
    requires WhiteEnd(s, p3) == p4 && IsQuote(Peek(s, p4)) && ParseString(s, p4) == Ok((v, m))
    ensures ParseProp(s, i) == Ok(Some(((name, v), m)))
  {
  }

  /** The name, the whites and the '=' of a printed attribute. */
  lemma {:induction false} PropHead(s: string, i: nat, name: string, ws1: string, ws2: string, v: string, q: char, p1: nat, p2: nat)
    requires IsName(name) && AllWhite(ws1) && IsQuote(q)
    requires At(s, i, name + ws1 + "=" + ws2 + Quoted(v, q))
    requires p1 == i + |name| && p2 == p1 + |ws1|
    ensures p2 < |s|
    ensures Identifier(s, i) == Some((name, p1)) && WhiteEnd(s, p1) == p2 && Consume(s, p2, '=') == Ok(p2 + 1)
  {
    PropTextAt(s, i, name, ws1, ws2, v, q);
    NameAt(s, i, name);
    WhiteEndAt(s, p1, ws1);
  }

  /** The whites and the quoted value after the '=' of a printed attribute. */
  lemma {:induction false} PropValue(s: string, i: nat, name: string, ws1: string, ws2: string, v: string, q: char, p3: nat, p4: nat, m: nat)
    requires IsName(name) && AllWhite(ws1) && AllWhite(ws2) && IsQuote(q) && QuotedBody(v, q) && NUL !in v
    requires At(s, i, name + ws1 + "=" + ws2 + Quoted(v, q))
    requires p3 == i + |name| + |ws1| + 1 && p4 == p3 + |ws2| && m == p4 + |v| + 2
    ensures p4 <= |s|
    ensures WhiteEnd(s, p3) == p4 && IsQuote(Peek(s, p4)) && ParseString(s, p4) == Ok((v, m))
  {
    PropTextAt(s, i, name, ws1, ws2, v, q);
    WhiteEndAt(s, p3, ws2);
    ParseStringComplete(s, p4, v, q);
  }

  /** parseProp reads name, optional whites, '=', optional whites and a
      quoted value, returning the name and the value between the quotes. */
  lemma {:induction false} ParsePropComplete(s: string, i: nat, name: string, ws1: string, ws2: string, v: string, q: char)
    requires IsName(name) && AllWhite(ws1) && AllWhite(ws2) && IsQuote(q) && QuotedBody(v, q) && NUL !in v
    requires At(s, i, name + ws1 + "=" + ws2 + Quoted(v, q))
    ensures ParseProp(s, i) == Ok(Some(((name, v), i + |name| + |ws1| + |ws2| + |v| + 3)))
  {
    var p1: nat := i + |name|;
    var p2: nat := p1 + |ws1|;
    var p3: nat := p2 + 1;
    var p4: nat := p3 + |ws2|;
    var m: nat := i + |name| + |ws1| + |ws2| + |v| + 3;
    PropHead(s, i, name, ws1, ws2, v, q, p1, p2);
    PropValue(s, i, name, ws1, ws2, v, q, p3, p4, m);
    ParsePropSteps(s, i, name, p1, p2, p3, p4, v, m);
  }

  /** Conversely, an attribute parseProp reads is a name, then whites only,
      '=', whites only and a quote where parseString reads the value and
      stops at the attribute's end. */
  lemma {:induction false} ParsePropSound(s: string, i: nat)
    requires i <= |s| && ParseProp(s, i).Ok? && ParseProp(s, i).value.Some?
    ensures var ((name, value), m) := ParseProp(s, i).value.value;
            IsName(name) && i + |name| <= |s| && s[i..i + |name|] == name &&
            var p2 := WhiteEnd(s, i + |name|);
            AllWhite(s[i + |name|..p2]) && p2 < |s| && s[p2] == '=' &&
            var p3 := WhiteEnd(s, p2 + 1);
            AllWhite(s[p2 + 1..p3]) && IsQuote(Peek(s, p3)) && ParseString(s, p3) == Ok((value, m))
  {
    var j: nat := Identifier(s, i).value.1;
    IdentifierName(s, i);
    WhiteEndRun(s, j);
    var p2: nat := WhiteEnd(s, j);
    WhiteEndRun(s, p2 + 1);
  }

  /** A name followed by whites and then anything but '=' is rejected,
      naming '=' and the character found. */
  lemma {:induction false} ParsePropNoEquals(s: string, i: nat, name: string, ws: string)
    requires IsName(name) && At(s, i, name) && !IsNameChar(Peek(s, i + |name|))
    requires AllWhite(ws) && At(s, i + |name|, ws) && !IsWhite(Peek(s, i + |name| + |ws|))
    requires Peek(s, i + |name| + |ws|) != '='
    ensures ParseProp(s, i) == Err(Expected('=', Peek(s, i + |name| + |ws|)))
  {
    NameAt(s, i, name);
    WhiteEndAt(s, i + |name|, ws);
  }

  /** A name, whites, '=' and whites followed by anything but a quote is
      rejected, naming both quotes and the character found. */
  lemma {:induction false} ParsePropNoQuote(s: string, i: nat, name: string, ws1: string, ws2: string)
    requires IsName(name) && At(s, i, name) && !IsNameChar(Peek(s, i + |name|))
    requires AllWhite(ws1) && At(s, i + |name|, ws1) && Peek(s, i + |name| + |ws1|) == '='
    requires AllWhite(ws2) && At(s, i + |name| + |ws1| + 1, ws2)
    requires !IsWhite(Peek(s, i + |name| + |ws1| + 1 + |ws2|)) && !IsQuote(Peek(s, i + |name| + |ws1| + 1 + |ws2|))
    ensures ParseProp(s, i) == Err(ExpectedEither('"', '\'', Peek(s, i + |name| + |ws1| + 1 + |ws2|)))
  {
    NameAt(s, i, name);
    WhiteEndAt(s, i + |name|, ws1);
    WhiteEndAt(s, i + |name| + |ws1| + 1, ws2);
  }

  /** The text of one attribute as Writer::writeProperty prints it. */
  function AttrText(a: Attr): string
  {
    " " + a.0 + "=" + Quoted(a.1, '"')
  }

  function AttrsText(attrs: seq<Attr>): string
  {
    if attrs == [] then "" else AttrText(attrs[0]) + AttrsText(attrs[1..])
  }

  /** An attribute that reads back unchanged. */
  predicate WellFormedAttr(a: Attr)
  {
    IsName(a.0) && QuotedBody(a.1, '"') && NUL !in a.1
  }

  lemma {:induction false} AppendFirst<T>(acc: seq<T>, xs: seq<T>)
    requires xs != []
    ensures acc + [xs[0]] + xs[1..] == acc + xs
  {
    assert [xs[0]] + xs[1..] == xs;
  }

  /** A printed attribute: a space, then the attribute as parseProp reads it
      with no whites around the '='. */
  lemma {:induction false} AttrTextAt(s: string, p: nat, a: Attr)
    requires IsName(a.0) && At(s, p, AttrText(a))
    ensures At(s, p, " ") && !IsWhite(Peek(s, p + 1))
    ensures At(s, p + 1, a.0 + "" + "=" + "" + Quoted(a.1, '"'))
    ensures |AttrText(a)| == |a.0| + |a.1| + 4
  {
    assert AttrText(a) == " " + (a.0 + "=" + Quoted(a.1, '"'));
    AtConcat(s, p, " ", a.0 + "=" + Quoted(a.1, '"'));
    assert a.0 + "=" + Quoted(a.1, '"') == a.0 + ("=" + Quoted(a.1, '"'));
    AtConcat(s, p + 1, a.0, "=" + Quoted(a.1, '"'));
    AtPeek(s, p + 1, a.0, 0);
    NoWhites(a.0, Quoted(a.1, '"'));
  }

  lemma {:induction false} NoWhites(name: string, rest: string)
    ensures name + "" + "=" + "" + rest == name + "=" + rest
  {
  }

  /** One printed attribute is read by a single parseProp after its space. */
  lemma {:induction false} AttrFirst(s: string, p: nat, a: Attr, j: nat)
    requires WellFormedAttr(a) && At(s, p, AttrText(a)) && j == p + |AttrText(a)|
    ensures p < |s| && j <= |s| && WhiteEnd(s, p) == p + 1
    ensures ParseProp(s, p + 1) == Ok(Some((a, j)))
  {
    AttrTextAt(s, p, a);
    WhiteEndAt(s, p, " ");
    ParsePropComplete(s, p + 1, a.0, "", "", a.1, '"');
  }

  /** The attribute loop entered, as parseNode enters it, after skipping whites. */
  function AttrsFrom(s: string, p: nat, acc: seq<Attr>): Result<(seq<Attr>, nat)>
    requires p <= |s|
  {
    ParseAttrs(s, WhiteEnd(s, p), acc)
  }

  /** One turn of the attribute loop: an attribute read after one white. */
  lemma {:induction false} AttrsStep(s: string, p: nat, acc: seq<Attr>, a: Attr, j: nat)
    requires p < |s| && j <= |s| && WhiteEnd(s, p) == p + 1 && ParseProp(s, p + 1) == Ok(Some((a, j)))
    ensures AttrsFrom(s, p, acc) == AttrsFrom(s, j, acc + [a])
  {
  }

  /** The first printed attribute takes one turn of the loop; the loop then
      goes on from after it with the attribute appended. */
  lemma {:induction false} AttrsHead(s: string, p: nat, a: Attr, acc: seq<Attr>, j: nat,
                                     xs: seq<Attr>, ys: seq<Attr>, n: nat, m: nat)
    requires WellFormedAttr(a) && At(s, p, AttrText(a)) && j == p + |AttrText(a)|
    requires j <= |s| && AttrsFrom(s, j, acc + [a]) == Ok((xs, n)) && xs == ys && n == m
    ensures p <= |s|
    ensures AttrsFrom(s, p, acc) == Ok((ys, m))
  {
    AttrFirst(s, p, a, j);
    AttrsStep(s, p, acc, a, j);
  }

  /** A printed list is its first attribute followed by the rest. */
  lemma {:induction false} AttrsSplit(s: string, p: nat, attrs: seq<Attr>)
    requires attrs != [] && At(s, p, AttrsText(attrs))
    ensures At(s, p, AttrText(attrs[0])) && At(s, p + |AttrText(attrs[0])|, AttrsText(attrs[1..]))
    ensures p + |AttrText(attrs[0])| + |AttrsText(attrs[1..])| == p + |AttrsText(attrs)|
  {
    AtConcat(s, p, AttrText(attrs[0]), AttrsText(attrs[1..]));
  }

  /** The attribute loop stops, consuming nothing, at a character that is
      neither white nor the start of a name. */
  lemma {:induction false} AttrsEnd(s: string, p: nat, acc: seq<Attr>)
    requires p <= |s| && !IsWhite(Peek(s, p)) && !IsNameStart(Peek(s, p))
    ensures AttrsFrom(s, p, acc) == Ok((acc, p))
  {
    assert WhiteEnd(s, p) == p;
  }

  /** The attribute loop reads a printed attribute list back, in order,
      stopping at the first character that is neither white nor a name. */
  lemma {:induction false} AttrsComplete(s: string, p: nat, attrs: seq<Attr>, acc: seq<Attr>)
    requires forall k :: 0 <= k < |attrs| ==> WellFormedAttr(attrs[k])
    requires At(s, p, AttrsText(attrs))
    requires !IsWhite(Peek(s, p + |AttrsText(attrs)|)) && !IsNameStart(Peek(s, p + |AttrsText(attrs)|))
    ensures p <= |s|
    ensures AttrsFrom(s, p, acc) == Ok((acc + attrs, p + |AttrsText(attrs)|))
    decreases attrs, 1
  {
    if attrs == [] {
      assert acc + attrs == acc;
      AttrsEnd(s, p, acc);
    } else {
      AttrsSplit(s, p, attrs);
      AttrsCompleteCons(s, p, attrs, acc);
    }
  }

  /** AttrsComplete for a nonempty list: the first attribute, then the rest
      by induction. */
  lemma {:induction false} AttrsCompleteCons(s: string, p: nat, attrs: seq<Attr>, acc: seq<Attr>)
    requires attrs != [] && forall k :: 0 <= k < |attrs| ==> WellFormedAttr(attrs[k])
    requires At(s, p, AttrText(attrs[0])) && At(s, p + |AttrText(attrs[0])|, AttrsText(attrs[1..]))
    requires p + |AttrText(attrs[0])| + |AttrsText(attrs[1..])| == p + |AttrsText(attrs)|
    requires !IsWhite(Peek(s, p + |AttrsText(attrs)|)) && !IsNameStart(Peek(s, p + |AttrsText(attrs)|))
    ensures p <= |s|
    ensures AttrsFrom(s, p, acc) == Ok((acc + attrs, p + |AttrsText(attrs)|))
    decreases attrs, 0
  {
    var j: nat := p + |AttrText(attrs[0])|;
    AttrsComplete(s, j, attrs[1..], acc + [attrs[0]]);
    AppendFirst(acc, attrs);
    AttrsHead(s, p, attrs[0], acc, j, acc + [attrs[0]] + attrs[1..], acc + attrs,
              j + |AttrsText(attrs[1..])|, p + |AttrsText(attrs)|);
  }

  /** An attribute in any layout parseProp accepts after the whites the
      loop skips: those whites, the name, whites, '=', whites and the value
      in either quote. */
  datatype SpacedAttr = SpacedAttr(lead: string, name: string, ws1: string, ws2: string, quote: char, value: string)

  predicate WellFormedSpaced(a: SpacedAttr)
  {
    AllWhite(a.lead) && IsName(a.name) && AllWhite(a.ws1) && AllWhite(a.ws2) &&
    IsQuote(a.quote) && QuotedBody(a.value, a.quote) && NUL !in a.value
  }

  function SpacedText(a: SpacedAttr): string
  {
    a.lead + (a.name + a.ws1 + "=" + a.ws2 + Quoted(a.value, a.quote))
  }

  function SpacedAttrsText(xs: seq<SpacedAttr>): string
    decreases xs
  {
    if xs == [] then "" else SpacedText(xs[0]) + SpacedAttrsText(xs[1..])
  }

  /** The (name, value) pairs parseProp returns for those attributes. */
  function AttrsOf(xs: seq<SpacedAttr>): (r: seq<Attr>)
    ensures |r| == |xs|
    ensures forall k :: 0 <= k < |xs| ==> r[k] == (xs[k].name, xs[k].value)
    decreases xs
  {
    if xs == [] then [] else [(xs[0].name, xs[0].value)] + AttrsOf(xs[1..])
  }

  /** One turn of the attribute loop: the whites skipped, then one parseProp. */
  lemma {:induction false} AttrsTurn(s: string, p: nat, q: nat, acc: seq<Attr>, a: Attr, j: nat)
    requires p <= q <= |s| && j <= |s| && WhiteEnd(s, p) == q && ParseProp(s, q) == Ok(Some((a, j)))
    ensures AttrsFrom(s, p, acc) == AttrsFrom(s, j, acc + [a])
  {
  }

  /** The parts of an attribute in any accepted layout, located in the text. */
  lemma {:induction false} SpacedParts(s: string, p: nat, a: SpacedAttr, q: nat, j: nat)
    requires WellFormedSpaced(a) && At(s, p, SpacedText(a)) && q == p + |a.lead| && j == p + |SpacedText(a)|
    ensures j <= |s| && At(s, p, a.lead) && !IsWhite(Peek(s, q))
    ensures At(s, q, a.name + a.ws1 + "=" + a.ws2 + Quoted(a.value, a.quote))
    ensures j == q + |a.name| + |a.ws1| + |a.ws2| + |a.value| + 3
  {
    var body := a.name + a.ws1 + "=" + a.ws2 + Quoted(a.value, a.quote);
    AtConcat(s, p, a.lead, body);
    AtPeek(s, q, body, 0);
    AtSlice(s, p, SpacedText(a));
  }

  /** An attribute in any accepted layout takes exactly one turn of the loop. */
  lemma {:induction false} SpacedFirst(s: string, p: nat, a: SpacedAttr, acc: seq<Attr>, j: nat)
    requires WellFormedSpaced(a) && At(s, p, SpacedText(a)) && j == p + |SpacedText(a)|
    ensures j <= |s| && AttrsFrom(s, p, acc) == AttrsFrom(s, j, acc + [(a.name, a.value)])
  {
    var q: nat := p + |a.lead|;
    SpacedParts(s, p, a, q, j);
    WhiteEndAt(s, p, a.lead);
    ParsePropComplete(s, q, a.name, a.ws1, a.ws2, a.value, a.quote);
    AttrsTurn(s, p, q, acc, (a.name, a.value), j);
  }

  /** The loop after its first turn, with the remaining turns known. */
  lemma {:induction false} SpacedHead(s: string, p: nat, a: SpacedAttr, acc: seq<Attr>, j: nat,
                                      xs: seq<Attr>, ys: seq<Attr>, e: nat)
    requires WellFormedSpaced(a) && At(s, p, SpacedText(a)) && j == p + |SpacedText(a)|
    requires j <= |s| && AttrsFrom(s, j, acc + [(a.name, a.value)]) == Ok((xs, e)) && xs == ys
    ensures p <= |s| && AttrsFrom(s, p, acc) == Ok((ys, e))
  {
    SpacedFirst(s, p, a, acc, j);
  }

  /** Only whites left before a character that ends the loop. */
  lemma {:induction false} SpacedEnd(s: string, p: nat, trail: string, acc: seq<Attr>, e: nat)
    requires AllWhite(trail) && At(s, p, trail) && e == p + |trail|
    requires !IsWhite(Peek(s, e)) && !IsNameStart(Peek(s, e))
    ensures e <= |s| && AttrsFrom(s, p, acc) == Ok((acc, e))
  {
    AtSlice(s, p, trail);
    WhiteEndAt(s, p, trail);
    AttrsEnd(s, e, acc);
  }

  /** A run of attributes is its first one followed by the rest. */
  lemma {:induction false} SpacedSplit(s: string, p: nat, xs: seq<SpacedAttr>, trail: string, j: nat, e: nat)
    requires xs != [] && At(s, p, SpacedAttrsText(xs) + trail) && j == p + |SpacedText(xs[0])|
    requires e == p + |SpacedAttrsText(xs)| + |trail|
    ensures At(s, p, SpacedText(xs[0])) && At(s, j, SpacedAttrsText(xs[1..]) + trail)
    ensures e == j + |SpacedAttrsText(xs[1..])| + |trail|
  {
    assert SpacedAttrsText(xs) + trail == SpacedText(xs[0]) + (SpacedAttrsText(xs[1..]) + trail);
    AtConcat(s, p, SpacedText(xs[0]), SpacedAttrsText(xs[1..]) + trail);
  }

  lemma {:induction false} AttrsOfCons(xs: seq<SpacedAttr>, acc: seq<Attr>)
    requires xs != []
    ensures acc + [(xs[0].name, xs[0].value)] + AttrsOf(xs[1..]) == acc + AttrsOf(xs)
  {
    assert AttrsOf(xs) == [(xs[0].name, xs[0].value)] + AttrsOf(xs[1..]);
  }

  /** The attribute loop in any layout parseProp accepts: attributes with
      any whites before each and around each '=', either quote, and any
      whites after the last, read back in order. The loop stops at the
      first character that is neither white nor the start of a name. */
  lemma {:induction false} SpacedAttrsComplete(s: string, p: nat, xs: seq<SpacedAttr>, trail: string, acc: seq<Attr>, e: nat)
    requires forall k :: 0 <= k < |xs| ==> WellFormedSpaced(xs[k])
    requires AllWhite(trail) && At(s, p, SpacedAttrsText(xs) + trail)
    requires e == p + |SpacedAttrsText(xs)| + |trail|
    requires !IsWhite(Peek(s, e)) && !IsNameStart(Peek(s, e))
    ensures e <= |s|
    ensures AttrsFrom(s, p, acc) == Ok((acc + AttrsOf(xs), e))
    decreases xs
  {
    if xs == [] {
      assert SpacedAttrsText(xs) + trail == trail;
      assert acc + AttrsOf(xs) == acc;
      SpacedEnd(s, p, trail, acc, e);
    } else {
      var j: nat := p + |SpacedText(xs[0])|;
      var pair: Attr := (xs[0].name, xs[0].value);
      SpacedSplit(s, p, xs, trail, j, e);
      SpacedAttrsComplete(s, j, xs[1..], trail, acc + [pair], e);
      AttrsOfCons(xs, acc);
      SpacedHead(s, p, xs[0], acc, j, acc + [pair] + AttrsOf(xs[1..]), acc + AttrsOf(xs), e);
    }
  }

  /** Well-formed attributes and trailing whites, set off by a white from
      what precedes them whenever there is an attribute. */
  predicate SeparatedAttrs(xs: seq<SpacedAttr>, trail: string)
  {
    (forall k :: 0 <= k < |xs| ==> WellFormedSpaced(xs[k])) && AllWhite(trail) &&
    (xs != [] ==> xs[0].lead != [])
  }

  /** Such a run of attributes and whites is empty or starts with a white. */
  lemma {:induction false} SeparatedOpensWhite(xs: seq<SpacedAttr>, trail: string)
    requires SeparatedAttrs(xs, trail)
    ensures SpacedAttrsText(xs) + trail != [] ==> IsWhite((SpacedAttrsText(xs) + trail)[0])
  {
    if xs != [] {
      assert (SpacedAttrsText(xs) + trail)[0] == SpacedText(xs[0])[0] == xs[0].lead[0];
    } else {
      assert SpacedAttrsText(xs) + trail == trail;
    }
  }
}
