/** The trailing-space trim of parseNode's content step, as written and as
    evidently intended. */
module XmlFindings {
  import opened XmlBase
  import opened XmlNode
  import opened XmlGrammar

  /** The content "\t\v" of element a: skipWhites passes the tab but not the
      vertical tab, so the text run begins at 4 and ends at the '<' at 5.
      The trim as written walks back over both characters, to 3, before the
      run's start: makeString(begin, end) is then called with end < begin. */
  lemma {:induction false} TrimPastBegin()
    ensures var s := ['<', 'a', '>', '\t', '\U{B}', '<', '/', 'a', '>'];
            WhiteEnd(s, 3) == 4 && TextEnd(s, 4) == 5 && TrimEndAsWritten(s, 5) == 3
  {
    var s := ['<', 'a', '>', '\t', '\U{B}', '<', '/', 'a', '>'];
    assert WhiteEnd(s, 4) == 4;
    assert TextEnd(s, 5) == 5;
    assert TrimEndAsWritten(s, 3) == 3;
  }

  /** The bounded trim never passes the start of the run, and it agrees
      with the trim as written whenever the character before the run is not
      a space, which is the only case the source's authors had in mind. */
  lemma {:induction false} TrimAgrees(s: string, b: nat, e: nat)
    requires b <= e <= |s| && (b == 0 || !IsSpace(s[b - 1]))
    ensures b <= TrimEnd(s, b, e) && TrimEndAsWritten(s, e) == TrimEnd(s, b, e)
    decreases e
  {
    if e > b && IsSpace(s[e - 1]) {
      TrimAgrees(s, b, e - 1);
    }
  }

  /** With the bounded trim, the same element reads back with empty
      content. */
  lemma {:induction false} BlankContentRead()
    ensures ParseNode(['<', 'a', '>', '\t', '\U{B}', '<', '/', 'a', '>'], 0) == Ok((Node("a", map[], "", []), 9))
  {
    var s := ['<', 'a', '>', '\t', '\U{B}', '<', '/', 'a', '>'];
    var n := Node("a", map[], "", []);
    assert Identifier(s, 1) == Some(("a", 2)) by {
      assert NameEnd(s, 2) == 2;
      assert MakeString(s, 1, 2) == "a";
    }
    assert ParseAttrs(s, 2, []) == Ok(([], 2)) by {
      assert Identifier(s, 2) == None;
    }
    assert StartTag(s, 0) == Ok(("a", [], 2));
    assert ConsumeWord(s, 2, ">") == Ok(3) by {
      AtSlice(s, 2, ">");
      assert s[2..3] == ">";
    }
    assert Identifier(s, 7) == Some(("a", 8)) by {
      assert NameEnd(s, 8) == 8;
      assert MakeString(s, 7, 8) == "a";
    }
    assert ParseBody(s, 5, n) == Ok((n, 9)) by {
      assert WhiteEnd(s, 5) == 5;
      assert EndTag(s, 5, n) == Ok((n, 9));
    }
    assert ParseBody(s, 3, n) == Ok((n, 9)) by {
      assert WhiteEnd(s, 3) == 4 by {
        assert WhiteEnd(s, 4) == 4;
      }
      assert TextEnd(s, 4) == 5;
      assert TrimEnd(s, 4, 5) == 4;
      assert MakeString(s, 4, 4) == "";
      assert n.(content := "") == n;
      assert BodyAt(s, 4, n) == ContentAt(s, 4, n);
    }
  }
}
