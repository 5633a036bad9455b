# XML reader and writer of the OSPRay sample applications

This project models the small XML library in `apps/common/xml/XML.cpp`:

- the reader, which walks a NUL-terminated text buffer with a cursor and builds a tree of
  `xml::Node`s (name, property map, text content, children);
- the `xml::Writer`, which prints elements with a stack of open-element states.

The text buffer is a `string` together with a cursor position. Reading at or past the end
yields the terminator NUL, so the model sees exactly what the C code sees through `*s`.
Every routine that takes the cursor by reference returns the new position instead. Every
`std::runtime_error` becomes an `Err` value of `XmlError`, one constructor per message.

The files are:

- `base.dfy` (module `XmlBase`): the character classes, the cursor, and the `Option`,
  `Result` and `XmlError` types.
- `node.dfy` (module `XmlNode`): the node and its property accessors. It also defines
  `PropsOf`, the map a start tag's attributes build when they are stored one after another.
- `grammar.dfy` (module `XmlGrammar`): every reading routine as a function of the text and
  the cursor. The functions keep the source's branches, order of tests, and error cases.
- `reader.dfy` (module `XmlReader`): the reading routines as imperative methods with the
  source's loops. Each one is proved to compute exactly its grammar function.
- `tokens.dfy` (module `XmlTokens`): lemmas about identifiers, whites, quoted values and
  attributes. They show what each scanner accepts, and that printed text reads back.
- `elements.dfy` (module `XmlElements`): element trees as printed, and the proof that
  `parseNode` reads every well-formed printed element back as the node it describes.
- `document.dfy` (module `XmlDocument`): the document level. It covers the header, the
  top-level element loop with any whites between elements, the whites and trailing spaces
  around an element's content, a text that ends with an element still open, and the
  rejections.
- `writer.dfy` (module `XmlWriter`): the `Writer` class, and methods that drive it as its
  clients do (`openNode`, one `writeProperty` per attribute, `closeNode`). The text they
  write for top-level elements without content is proved to read back.
- `findings.dfy` (module `XmlFindings`): the content-trimming defect described under
  Findings.

## Model

| member | source | states |
|---|---|---|
| XmlNode.Node.GetProp | apps/common/xml/XML.cpp:30-40 | `getProp(name, fallback)` returns the stored value when `hasProp(name)`, and the fallback otherwise |
| XmlNode.Node.GetRequiredProp | apps/common/xml/XML.cpp:42-48 | `getProp(name)` succeeds exactly when `hasProp(name)`, with the stored value; otherwise it fails with the missing-property error naming the key |
| XmlNode.PropsOfKeys | apps/common/xml/XML.cpp:183-186 | storing the attributes one by one gives a property map whose keys are exactly the names written |
| XmlNode.PropsOfLast | apps/common/xml/XML.cpp:183-186 | a property written more than once keeps the value of its last occurrence |
| XmlNode.AccessorsOverAttrs | apps/common/xml/XML.cpp:30-48 | on a node read from a start tag, `hasProp` holds exactly for the written names; both `getProp`s return the last value written, or the fallback or the error when the name was never written |
| XmlGrammar.WhiteEnd | apps/common/xml/XML.cpp:155-158 | `skipWhites` never moves backwards, and stops on a character that is not white (or at the terminator) |
| XmlTokens.WhiteEndAt | apps/common/xml/XML.cpp:155-158 | a run of whites followed by a non-white is skipped exactly to its end |
| XmlReader.SkipWhites | apps/common/xml/XML.cpp:155-158 | the `skipWhites` loop stops where `WhiteEnd` says |
| XmlGrammar.Consume | apps/common/xml/XML.cpp:63-85 | `consume(s, w)` succeeds exactly when `w` is under the cursor and then steps over one character; otherwise the error names `w` and the character found |
| XmlGrammar.ConsumeWord | apps/common/xml/XML.cpp:86-99 | `consume(s, word)` either advances by exactly the word's length, staying inside the text, or fails naming the word |
| XmlGrammar.ConsumeWordSlice | apps/common/xml/XML.cpp:86-99 | `consume(s, word)` succeeds exactly when the characters under the cursor spell the word, and then advances by the word's length; otherwise it fails naming the word |
| XmlGrammar.ConsumeWordAt | apps/common/xml/XML.cpp:86-99 | when the word is present, `consume(s, word)` advances by its length |
| XmlReader.ConsumeWord | apps/common/xml/XML.cpp:86-99 | the character loop of `consume(s, word)` computes `ConsumeWord` |
| XmlGrammar.MakeString | apps/common/xml/XML.cpp:101-113 | `makeString(begin, end)` has at most `end - begin` characters |
| XmlGrammar.MakeStringCut | apps/common/xml/XML.cpp:101-113 | `makeString(begin, end)` is the characters from `begin` up to the first NUL or up to `end`, whichever comes first: it holds no NUL, and it stops at `end` or at a NUL (the copy is read back as a C string) |
| XmlGrammar.MakeStringSlice | apps/common/xml/XML.cpp:101-113 | when no NUL lies between `begin` and `end`, `makeString(begin, end)` is exactly the characters from `begin` up to `end` |
| XmlGrammar.StringEnd | apps/common/xml/XML.cpp:119-123 | the quote scan ends on the closing quote at or after its start, or fails when it runs into the terminator |
| XmlTokens.StringEndSound | apps/common/xml/XML.cpp:119-123 | the characters the scan passes over form a well-escaped value: every unescaped character differs from the quote, and every backslash protects one following character |
| XmlTokens.StringEndComplete | apps/common/xml/XML.cpp:119-123 | a well-escaped value followed by its quote is scanned exactly to that quote |
| XmlGrammar.ParseString | apps/common/xml/XML.cpp:115-138 | a successful `parseString` moves past at least the two quotes |
| XmlTokens.ParseStringSound | apps/common/xml/XML.cpp:115-138 | `parseString` succeeds only on a quote, and the cursor ends just after the matching closing quote. The text strictly between the quotes is well-escaped; the value is that text up to its first NUL, backslashes kept, and the whole text when it holds no NUL |
| XmlTokens.ParseStringComplete | apps/common/xml/XML.cpp:115-138 | every well-escaped value without NUL, in double or single quotes, is read back unchanged, and the cursor ends after the closing quote |
| XmlReader.ParseString | apps/common/xml/XML.cpp:115-138 | the two quote loops of `parseString` compute `ParseString` |
| XmlGrammar.NameEnd | apps/common/xml/XML.cpp:145-147 | the identifier loop stays in the text and stops on a character that cannot continue a name |
| XmlGrammar.Identifier | apps/common/xml/XML.cpp:140-153 | `parseIdentifier` succeeds exactly when a letter or '_' is under the cursor. The identifier is then maximal: the character after it cannot continue a name |
| XmlGrammar.IdentifierName | apps/common/xml/XML.cpp:140-153 | the identifier read is exactly the text between the old and new cursor, and it is a name |
| XmlTokens.NameAt | apps/common/xml/XML.cpp:140-153 | a name followed by a character that cannot continue it is read back exactly |
| XmlReader.ParseIdentifier | apps/common/xml/XML.cpp:140-153 | the `parseIdentifier` loop computes `Identifier`, and on failure it leaves the cursor where it was |
| XmlGrammar.ParseProp | apps/common/xml/XML.cpp:160-170 | an attribute that `parseProp` reads moves the cursor forward, and not past the end of the text |
| XmlTokens.ParsePropSound | apps/common/xml/XML.cpp:160-170 | an attribute read by `parseProp` is a name written under the cursor, then whites, '=', whites and a quoted value that `parseString` reads, ending where the attribute ends |
| XmlTokens.ParsePropNoEquals | apps/common/xml/XML.cpp:164-165 | a name followed (after whites) by anything but '=' fails with the error expecting '=' and naming the character found |
| XmlTokens.ParsePropNoQuote | apps/common/xml/XML.cpp:166-167 | `name =` followed (after whites) by anything but a quote fails with the error expecting either quote and naming the character found |
| XmlTokens.ParsePropAbsent | apps/common/xml/XML.cpp:160-163 | `parseProp` reports no attribute exactly when no identifier starts under the cursor; it then consumes nothing |
| XmlTokens.ParsePropComplete | apps/common/xml/XML.cpp:160-170 | `name ws = ws "value"` (or single-quoted) is read as the pair (name, value), and the cursor ends after the closing quote |
| XmlReader.ParseProp | apps/common/xml/XML.cpp:160-170 | the imperative `parseProp` computes `ParseProp` |
| XmlGrammar.ParseAttrs | apps/common/xml/XML.cpp:183-186 | the attribute loop of `parseNode` (the same loop reads and drops the header's attributes at lines 249-252) stays in the text and only appends to the attributes already read |
| XmlTokens.AttrsComplete | apps/common/xml/XML.cpp:180-186 | the attribute loop reads a printed attribute list back in order, and stops after it |
| XmlTokens.SpacedAttrsComplete | apps/common/xml/XML.cpp:183-186 | the attribute loop reads attributes in any layout `parseProp` accepts (any whites before each and around each '=', either quote, any whites after the last) back as their (name, value) pairs in order, and stops at the first character that is neither white nor the start of a name |
| XmlReader.ParseAttrs | apps/common/xml/XML.cpp:180-186 | the attribute loop of `parseNode` stores the attributes into the property map, so a repeated name is overwritten (`PropsOf` of the attributes read) |
| XmlGrammar.TextEnd | apps/common/xml/XML.cpp:223-224 | the content scan stops at '<' or at the terminator |
| XmlGrammar.TrimEnd | apps/common/xml/XML.cpp:225-226 | the trailing-space trim (bounded at the start of the run) stays in the run and ends after a character that is not a space |
| XmlReader.ScanText | apps/common/xml/XML.cpp:223-227 | the two content loops compute `TextEnd` and `TrimEnd` |
| XmlGrammar.StartTag | apps/common/xml/XML.cpp:174-186 | a start tag that is read ('<', the name, the attributes) consumes at least one character and stays in the text |
| XmlElements.StartTagSpaced | apps/common/xml/XML.cpp:174-186 | a start tag in any accepted layout ('<' and the name, then attributes with any whites before each, at least one before the first, any whites around each '=', either quote, and any whites before '/' or '>') is read as its name and its attributes in order |
| XmlGrammar.ParseNode | apps/common/xml/XML.cpp:172-235 | a successful `parseNode` consumes at least one character |
| XmlGrammar.ParseBody | apps/common/xml/XML.cpp:195-229 | a body that is read ends at or after the loop's start and inside the text (XmlDocument.BodyWhites states that whites are skipped) |
| XmlGrammar.BodyAt | apps/common/xml/XML.cpp:197-228 | the branches of the body loop (end tag, child, end of text, content) end at or after where they start |
| XmlGrammar.EndTag | apps/common/xml/XML.cpp:197-206 | a matching end tag returns the node it closes unchanged and moves the cursor forward, staying in the text (XmlElements.EndTagAt states what it consumes) |
| XmlGrammar.ChildAt | apps/common/xml/XML.cpp:208-211 | a child read by the body loop consumes at least one character |
| XmlGrammar.ContentAt | apps/common/xml/XML.cpp:217-228 | a content step consumes at least one character |
| XmlElements.EndTagAt | apps/common/xml/XML.cpp:197-206 | at a written end tag, the body loop sees `</`, reads the name, and consumes the word `>` right after it |
| XmlElements.BodyEndUnclosed | apps/common/xml/XML.cpp:205 | an end tag whose name is followed by anything but `>` fails with the error naming the word `>` |
| XmlReader.ParseNode | apps/common/xml/XML.cpp:172-235 | the imperative `parseNode` (with its body loop in `ParseBody` and end tag in `EndTag`) computes `ParseNode` |
| XmlReader.EndTag | apps/common/xml/XML.cpp:197-206 | the end-tag branch computes `EndTag` |
| XmlReader.ParseBody | apps/common/xml/XML.cpp:195-229 | the body loop of `parseNode` computes `ParseBody` |
| XmlElements.LeafRoundTrip | apps/common/xml/XML.cpp:188-191 | a self-closing element reads back as a node with its name and properties, no content and no children, and the cursor ends after "/>" |
| XmlElements.NodeRoundTrip | apps/common/xml/XML.cpp:172-235 | every well-formed printed element, with its start tag, attributes, content, children and end tag, reads back as the node it describes; children stay in order, and the cursor ends right after the element |
| XmlElements.BodyMismatch | apps/common/xml/XML.cpp:197-204 | an end tag whose name differs from the element's is rejected with both names |
| XmlDocument.MismatchRejected | apps/common/xml/XML.cpp:197-204 | an open element closed by another name's end tag fails with the mismatch error naming both |
| XmlDocument.BodyWhites | apps/common/xml/XML.cpp:196 | a run of whites anywhere in an element's body (before its content, between children, before the end tag) is skipped and changes nothing else |
| XmlDocument.WhiteEndOver | apps/common/xml/XML.cpp:155-158 | `skipWhites` from the start of a run of whites ends where it ends from the run's end |
| XmlElements.TrimEndAt | apps/common/xml/XML.cpp:225-226 | the trailing-space trim stops right after the last character that is not a space |
| XmlDocument.PaddedContent | apps/common/xml/XML.cpp:217-228 | content written with whites before it and spaces after it is stored without them, and the body loop goes on at the next '<' |
| XmlDocument.EndOfTextOpen | apps/common/xml/XML.cpp:212-216 | a text that ends with an element still open yields that element with its content and children, at the end of the text |
| XmlDocument.SecondTextRejected | apps/common/xml/XML.cpp:217-221 | text, then a child, then text again is rejected with the two-contents error |
| XmlGrammar.ParseHeader | apps/common/xml/XML.cpp:237-256 | a header that `parseHeader` accepts ends after its start |
| XmlDocument.HeaderRoundTrip | apps/common/xml/XML.cpp:237-256 | `<?xml?>`, and `<?xml` followed by a white, any well-formed attributes with any whites before each and around each '=', either quote, and any whites before `?>`, are accepted; the attributes are read and dropped, and the cursor ends after `?>` |
| XmlReader.ParseHeader | apps/common/xml/XML.cpp:237-256 | the imperative `parseHeader` computes `ParseHeader` |
| XmlDocument.BadHeaderRejected | apps/common/xml/XML.cpp:244 | `<?xml` followed by neither a white nor `?>` is refused by `parseHeader`, and `parseXML` then fails with the header error |
| XmlGrammar.ParseXML | apps/common/xml/XML.cpp:258-276 | a text of whites only reads as a document without elements |
| XmlGrammar.ParseTop | apps/common/xml/XML.cpp:264-270 | the top-level loop only appends to the nodes already read |
| XmlDocument.XMLRoundTrip | apps/common/xml/XML.cpp:258-276 | a document of well-formed elements, each followed by a line break, reads back as those elements' nodes in order |
| XmlDocument.XMLSpacedRoundTrip | apps/common/xml/XML.cpp:258-276 | a document of well-formed elements, with any whites before the first one and any run of whites after each one, reads back as those elements' nodes in order |
| XmlDocument.RenderDocSpaced | apps/common/xml/XML.cpp:264-270 | the line breaks after the elements are such runs of whites |
| XmlDocument.XMLWithHeaderRoundTrip | apps/common/xml/XML.cpp:258-276 | the spaced document round trip with a header in any layout `parseHeader` accepts in front |
| XmlReader.ParseXML | apps/common/xml/XML.cpp:258-276 | the imperative `parseXML`, with its loop over top-level elements, computes `ParseXML` |
| XmlWriter.IndentWhite | apps/common/xml/XML.cpp:278-282 | the indentation is two spaces per open element, and all of it is white, so the reader skips it |
| XmlWriter.Writer.constructor | apps/common/xml/XML.cpp:358-360 | a new writer has no open element and has written nothing |
| XmlWriter.Writer.Spaces | apps/common/xml/XML.cpp:278-282 | `spaces()` appends two spaces per open element and leaves the stack alone |
| XmlWriter.Writer.WriteProperty | apps/common/xml/XML.cpp:284-294 | needs an open element without content yet; appends ` name="value"` and leaves the stack alone |
| XmlWriter.Writer.OpenNode | apps/common/xml/XML.cpp:296-303 | appends the indentation for the current depth, '<' and the type, and pushes exactly one state without content |
| XmlWriter.Writer.CloseNode | apps/common/xml/XML.cpp:305-317 | needs an open element; pops exactly one state, and appends `</type>` when it has content and `/>` plus a line break otherwise |
| XmlWriter.Writer.WriteLeaf | apps/common/xml/XML.cpp:284-317 | `openNode`, one `writeProperty` per attribute in order, then `closeNode` append the indentation, `<type`, the attributes and `/>` with a line break, and leave the stack as it was |
| XmlWriter.Writer.WriteLeaves | apps/common/xml/XML.cpp:284-317 | writing top-level elements without content one after another appends exactly `WrittenLeaves` of them and leaves the stack empty; when they are well formed that text reads back with `parseXML` as their nodes in order |
| XmlWriter.WrittenLeavesText | apps/common/xml/XML.cpp:296-317 | `WrittenLeaves`, the text the writer prints for top-level elements without content, is the document of those elements |
| XmlWriter.WrittenLeavesReadBack | apps/common/xml/XML.cpp:284-317 | that text reads back with `parseXML` as those elements, in order, each with the properties it was written with and neither content nor children |
| XmlFindings.TrimPastBegin | apps/common/xml/XML.cpp:226 | the as-written trim moves the end of the content before its start on the text of element `a` holding a tab and a vertical tab |
| XmlFindings.TrimAgrees | apps/common/xml/XML.cpp:226 | the bounded trim never passes the start, and equals the as-written trim whenever the character before the run is not a space |
| XmlFindings.BlankContentRead | apps/common/xml/XML.cpp:218-228 | with the bounded trim, that element reads back with empty content |

## Left out

- `readXML` (file opening, size, reading into a buffer) is I/O: the model starts from the buffer's text.
- `toString(float)` and `toString(vec3f)` format floating point through a string stream, and are not modelled.
- `Node::~Node` and the `new`/`delete` of nodes and writer states are memory management; nodes and states are values here.
- The warning printed on a text that ends with an element still open is output only; the returned node is modelled.
- `writeHeader` and `writeFooter` write through `FILE*` handles and are not modelled; `Writer::Writer` is modelled with an empty output. The binary file is not modelled.
- The `assert(xml)` checks on the writer's file handle are not modelled, since the output is a string.
- XmlWriter.Writer.OpenNode: the state's `hasContent` flag is declared in `XML.h`, which is not part of this model. It is taken to start false, and no operation here sets it.
- XmlElements.NodeRoundTrip: the elements are written with the writer's attribute layout (one space before each attribute, double quotes); other start-tag layouts are stated by XmlElements.StartTagSpaced for the start tag alone, not for the whole element.
- XmlWriter.WrittenLeavesReadBack: covers top-level elements without content only. A child written inside an open element follows its parent's `<type` and attributes with no `>`, so nested output is not shown to read back.
- XmlWriter.Writer.WriteProperty: the value is printed without escaping, so only values that are well-escaped for a double quote read back.
- XmlWriter.Writer.WriteProperty: a NUL inside a name or value is appended whole, whereas `fprintf`'s `%s` stops printing at it.
- XmlWriter.Writer.OpenNode: a NUL inside the type is appended whole, whereas `fprintf`'s `%s` stops printing at it.
- XmlWriter.Writer.CloseNode: a NUL inside the type is appended whole, whereas `fprintf`'s `%s` stops printing at it.
- XmlTokens.ParseStringComplete: a value holding a NUL is not read back whole, since `makeString` cuts it there; the lemma covers values without NUL, and XmlTokens.ParseStringSound states the cut.
- XmlReader.ConsumeWord: requires the word to be free of NUL, as every C string literal passed to `consume` is.
- XmlGrammar.StringEnd: a quoted value that runs into the terminator (the C loop reads past the buffer) is an explicit `UnterminatedString` error.
- The backslash inside a quoted value is kept in the value, as the source does; no escape is decoded.
- The `makeString` null-pointer check cannot fail with a cursor into the buffer, and the "un-parsed junk" check after the top-level loop cannot fail once the loop ends. Neither is modelled as an error.
- On an error the source's cursor has moved by some amount that no caller observes; the model returns only the error.
- The character classes are those of the "C" locale (ASCII `isalpha`, `isdigit` and `isspace`).
- A `char` of the model stands for one byte of the file, as the C buffer is `char*`; UTF-8 text is not decoded, and multi-byte characters are copied byte by byte into names and values.

## Findings

| source | as written | input that shows it | evidently intended | confidence | as-written member | corrected member |
|---|---|---|---|---|---|---|
| apps/common/xml/XML.cpp:226 | `while (isspace(end[-1])) --end;` trims trailing spaces with no lower bound. `skipWhites` does not skip a vertical tab or form feed, but `isspace` does, so the trim can walk back over the whole run and the whites before it. `makeString(begin, end)` is then called with `end` before `begin` | `<a>` followed by a tab, a vertical tab and `</a>`: the run starts at the vertical tab and the trim ends before the tab | stop the trim at the start of the run, giving empty content | not executed | XmlFindings.TrimPastBegin (with XmlGrammar.TrimEndAsWritten) | XmlGrammar.TrimEnd, XmlFindings.TrimAgrees, XmlFindings.BlankContentRead |
