/** Characters, the cursor over a NUL-terminated text buffer, and the error
    and result types shared by the XML reader and writer. */
module XmlBase {

  /** The terminator of the text buffer the reader walks. */
  const NUL: char := '\0'

  /** isWhite: the four characters the reader skips between tokens. */
  predicate IsWhite(c: char)
  {
    c == ' ' || c == '\t' || c == '\n' || c == '\r'
  }

  /** The C library's isspace in the "C" locale: isWhite plus vertical tab
      and form feed. Only the trimming of element content uses it. */
  predicate IsSpace(c: char)
  {
    IsWhite(c) || c == '\U{B}' || c == '\U{C}'
  }

  /** isalpha and isdigit in the "C" locale. */
  predicate IsAlpha(c: char)
  {
    ('a' <= c <= 'z') || ('A' <= c <= 'Z')
  }

  predicate IsDigit(c: char)
  {
    '0' <= c <= '9'
  }

  /** A character that may start an identifier, and one that may continue it. */
  predicate IsNameStart(c: char)
  {
    IsAlpha(c) || c == '_'
  }

  predicate IsNameChar(c: char)
  {
    IsNameStart(c) || IsDigit(c)
  }

  /** A complete identifier: a letter or '_', then letters, digits and '_'. */
  predicate IsName(w: string)
  {
    |w| > 0 && IsNameStart(w[0]) && forall k :: 0 <= k < |w| ==> IsNameChar(w[k])
  }

  /** The character under the cursor: the buffer is the string followed by
      its NUL terminator, so every position at or past the end reads NUL. */
  function Peek(s: string, i: nat): char
  {
    if i < |s| then s[i] else NUL
  }

  /** The text w occurs in s starting at position i. */
  predicate At(s: string, i: nat, w: string)
    decreases |w|
  {
    i + |w| <= |s| && (w == [] || (s[i] == w[0] && At(s, i + 1, w[1..])))
  }

  lemma {:induction false} AtSlice(s: string, i: nat, w: string)
    ensures At(s, i, w) <==> i + |w| <= |s| && s[i..i + |w|] == w
    decreases |w|
  {
    if w != [] && i + |w| <= |s| {
      AtSlice(s, i + 1, w[1..]);
      assert s[i..i + |w|] == [s[i]] + s[i + 1..i + |w|];
      if s[i..i + |w|] == w {
        assert s[i] == w[0] && s[i + 1..i + |w|] == w[1..];
      }
    }
  }

  /** A text occurs in itself at its start. */
  lemma {:induction false} AtWhole(s: string)
    ensures At(s, 0, s)
  {
    AtSlice(s, 0, s);
    assert s[0..|s|] == s;
  }

  /** A text made of three parts holds each part at its own offset. */
  lemma {:induction false} AtParts(s: string, a: string, b: string, c: string)
    requires s == a + b + c
    ensures |s| == |a| + |b| + |c|
    ensures At(s, 0, a) && At(s, |a|, b) && At(s, |a| + |b|, c)
  {
    AtWhole(s);
    AtConcat(s, 0, a + b, c);
    AtConcat(s, 0, a, b);
  }

  lemma {:induction false} AtConcat(s: string, i: nat, a: string, b: string)
    ensures At(s, i, a + b) <==> At(s, i, a) && At(s, i + |a|, b)
    decreases |a|
  {
    if a == [] {
      assert a + b == b;
    } else {
      AtConcat(s, i + 1, a[1..], b);
      assert (a + b)[1..] == a[1..] + b;
    }
  }

  lemma {:induction false} AtPeek(s: string, i: nat, w: string, k: nat)
    requires At(s, i, w) && k < |w|
    ensures Peek(s, i + k) == w[k]
    decreases k
  {
    if k > 0 {
      AtPeek(s, i + 1, w[1..], k - 1);
    }
  }

  lemma {:induction false} AtDrop(s: string, i: nat, w: string, n: nat)
    requires At(s, i, w) && n <= |w|
    ensures At(s, i + n, w[n..])
    decreases n
  {
    if n > 0 {
      AtDrop(s, i + 1, w[1..], n - 1);
      assert w[1..][n - 1..] == w[n..];
    }
  }

  datatype Option<T> = None | Some(value: T)

  /** The runtime errors the reader throws, one constructor per message. */
  datatype XmlError =
    | Expected(wanted: char, found: char)                   // expect(s, w)
    | ExpectedEither(first: char, second: char, found: char) // expect(s, w0, w1)
    | ExpectedWord(word: string)                            // consume(s, word)
    | UnterminatedString                                    // a quoted value runs into the terminator
    | MissingNodeName                                       // "could not parse node name"
    | MismatchedEndTag(started: string, ended: string)    // "started with ... but ended with ..."
    | TwoContents                                           // "two different contents"
    | BadHeader                                             // "could not parse XML header"
    | MissingProperty(name: string)                         // Node::getProp(name)

  datatype Result<T> = Ok(value: T) | Err(error: XmlError)
}
