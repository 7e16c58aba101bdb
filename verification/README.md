# AdvanceSCAN, modelled in Dafny

AdvanceSCAN keeps zipped rom sets in order. This project models the parts of it that have
the most to get wrong, and proves what they are for:

* the bundled **XML parser** (`expat/`): the tokenizer for content, the incremental parser
  around it, the hash tables, element declarations, attribute values, and the conversions
  between UTF-8 and UTF-16;
* the **zip engine** (`zip.cc`, `lib/endianrw.h`): the search for the end record, reading
  the directory, loading the local records, saving, and the round trip of all of these;
* the **repair machine** (`ziprom.cc`, `scan.cc`): members that move between a zip, its
  reject zip and an indexed collection, and the scan of a game's zip;
* the **game archive** (`game.cc`) and its **INFO text form** (`gameinfo.cc`, `diff.cc`,
  `lib/readinfo.c`, `strcov.c`).

`dafny verify dfyconfig.toml` checks everything.

## How it is built

Code that works step by step is a method or a class with the same loops, fields and
branches, and each such method is proved against a definition that does not loop: a run of
an automaton, a recursive expansion, a map, a multiset of contents, a forest. The main
results are then lemmas about these definitions, for all inputs, or contracts of the
outermost methods.

| files | what they hold |
|---|---|
| `Wrappers` | values that may be missing |
| `XmlBytes`, `XmlScan`, `XmlTok` | byte classes; the tokenizer as automata, and what a longer buffer can change; the scanning loops |
| `XmlContent`, `XmlParser` | content as a step machine, buffer independence; the parser object with its buffer |
| `XmlPrint`, `XmlMarkup`, `XmlReads`, `XmlShape`, `XmlExactly` | content as a tree with its text and its calls; printed markup is one token; trees are read as what they are; tokens are printed markup; what is accepted is a tree |
| `HashProbe`, `HashTable` | why the probe loop ends; the table as a map |
| `ContentModel`, `ContentScaffold`, `ElementDecl` | the recogniser for element declarations; the scaffold and the packed model; the parser's part |
| `AttValue`, `AttEscape`, `AttStore`, `AttList`, `AttTags` | what an attribute value means; what its references stand for; the one-pass code; the attribute list and its fast path; the list of a printed tag |
| `Unicode`, `UtfConvert` | encodings and validity tests; the converters |
| `Endian`, `ZipFormat`, `ZipSearch`, `ZipDirectory`, `ZipEntry`, `ZipLayout`, `ZipLoad`, `Zip`, `ZipRoundTrip` | numbers in records; the record layout; the end record; the directory; one entry; headers and descriptors byte by byte; the walk over local records; the class `zip`; save, open and load |
| `RomZip`, `RomArchive`, `RomFind`, `RomRun` | zips of roms; the collection and its index; finding a rom; the scan |
| `Merge`, `Working` | differential merging; working games and the filters |
| `InfoTokens`, `InfoReader`, `InfoLoad`, `InfoMeaning`, `InfoPrint` | tokens and values; the reader; the loader; what a listing says; the printer and the round trip |

Three conventions run through the files. A pointer into a buffer is a position in a
sequence of bytes, and a buffer that ends is a sequence that ends. An exception or error
code is a failing result. A predicate whose body would only slow other proofs down is
stated behind a trigger that has to be asked for (`Asked` and its kin).

## Where the code falls short of what is promised

* **CR LF in entity texts** (`AttValue.MeetsStandard`, `AttValue.LineEndLost`). Section 3.3.3
  of XML 1.0 turns each white space character of a replacement text into a space. The code
  turns a CR LF pair into one, because it uses the same tokens as for the literal value. The
  difference shows in CDATA attributes only, and only if such a pair comes from the text of
  an entity; then always.
* **The wrong end record** (`ZipRoundTrip.SavedOpens`, `ZipRoundTrip.FakeEnd`,
  `ZipRoundTrip.FieldIsSig`). A saved file opens with its own directory if and only if the
  last signature in its end record and comment is in the search window and leads to the right
  start. A comment that is an end record breaks that; so does a harmless one, if a field of
  the end record has the bytes of the signature.
* **Resources below games** (`Working.KeepsExactly`, `Working.ParentsKeepExactly`,
  `Working.ResourceAlone`). The filters keep the `romof` game of every game they keep exactly
  if each resource stands below a resource or a game that the filter keeps anyway.
* **Cycles of `romof`** (`Merge.EndlessExactly`, `Merge.EndlessArchive`). The reduction does not
  end exactly on archives where some game leads into a cycle of two or more games that it is
  not on itself. On a cycle itself it ends, and a key stays in one game of it.
* **Members of the same name** in the reject zip (`RomRun.ConservedExactly`, `RomRun.SafeScan`,
  `RomRun.LosingScan`). The safety goal is that whatever is removed or overwritten is kept in
  the reject zip. A member that is moved there overwrites its namesake, so the goal is met
  exactly if each content lost in this way was copied elsewhere; it is always met if no member
  that may be moved has a name of the reject zip.

## Model

| member | source | states |
|---|---|---|
| XmlBytes.CharStable | expat/xmltok_impl.c:5-81 | The name, name-start and validity tests on a character that fits in a buffer come out the same in every longer buffer; only a character cut off by the end may change. |
| XmlScan.CommentStable | expat/xmltok_impl.c:87-123 | A comment, or an error in one, that a buffer decides is the same token with the same end in every longer buffer. |
| XmlScan.PiStable | expat/xmltok_impl.c:174-279 | The same for processing instructions and the XML declaration, including the check of the target name. |
| XmlScan.EndStable | expat/xmltok_impl.c:377-423 | The same for end tags. |
| XmlScan.RefStable | expat/xmltok_impl.c:426-518 | The same for entity and character references. |
| XmlScan.ValueStable | expat/xmltok_impl.c:594-619 | The same for the scan of an attribute value up to its closing quote. |
| XmlScan.AttStable | expat/xmltok_impl.c:522-677 | The same for the attributes of a start tag up to the end of the tag. |
| XmlScan.TagStable | expat/xmltok_impl.c:681-779 | The same for a start tag from its name on. |
| XmlScan.LtStable | expat/xmltok_impl.c:681-779 | The same for everything that starts with `<`. |
| XmlScan.DataRunExtends | expat/xmltok_impl.c:832-876 | In a longer buffer a run of character data goes on from exactly where the shorter buffer ended it, or stays the error it was. |
| XmlScan.CdataRunExtends | expat/xmltok_impl.c:352-375 | The same for runs inside a CDATA section. |
| XmlScan.ContentTokStable | expat/xmltok.h:176-194 | Prefix stability of `contentTok`: a token decided on a prefix, other than data, is the token of every longer input with the same end; a data token becomes what the scanner returns when it is called again at its end, moved along: longer data, or the invalid `]]>`. |
| XmlScan.CdataTokStable | expat/xmltok.h:176-194 | The same for `cdataSectionTok`. |
| XmlScan.DataClean | expat/xmltok_impl.c:781-876 | No character of a data token is `<` or `&`, and none starts the sequence `]]>`. |
| XmlTok.ScanComment | expat/xmltok_impl.c:87-123 | The scanning loop returns the token of the reference automaton for comments on every input. |
| XmlTok.ScanPi | expat/xmltok_impl.c:219-279 | The same for processing instructions. |
| XmlTok.ScanCdataSection | expat/xmltok_impl.c:281-299 | The byte by byte loop accepts exactly the word `CDATA[` and reports the first byte that differs. |
| XmlTok.ScanEndTag | expat/xmltok_impl.c:379-423 | The loop returns the token of the reference automaton for end tags. |
| XmlTok.ScanHexCharRef | expat/xmltok_impl.c:428-458 | The same for hexadecimal character references. |
| XmlTok.ScanCharRef | expat/xmltok_impl.c:460-490 | The same for character references. |
| XmlTok.ScanRef | expat/xmltok_impl.c:492-518 | The same for references of both kinds. |
| XmlTok.ScanValue | expat/xmltok_impl.c:594-619 | The inner loop over an attribute value leaves it exactly behind the closing quote that the reference run finds, or returns its error. |
| XmlTok.ScanAtts | expat/xmltok_impl.c:522-677 | The nested loops over attributes, with their jumps, return the token of one automaton with six states; `XmlMarkup.PrintedTag` and `XmlShape.TagShape` say which texts have which token. |
| XmlTok.ScanLt | expat/xmltok_impl.c:681-779 | `scanLt` returns the token of the reference run for every input; for each kind of markup lemmas of `XmlMarkup` and `XmlShape` say which texts are that token. |
| XmlTok.NextContentTok | expat/xmltok_impl.c:781-876 | `contentTok` returns the reference token, of which the stability lemmas and the lemmas on printed markup speak. |
| XmlTok.NextCdataTok | expat/xmltok_impl.c:301-375 | `cdataSectionTok` returns the reference token. |
| XmlContent.TurnStable | expat/xmlparse.c:2121-2573 | A token that the parser takes from a short buffer can be taken first when the longer buffer is parsed: same error, or same state, unread bytes and events up to the cuts in character data. |
| XmlContent.DataContinues | expat/xmlparse.c:2526-2556 | Reporting one data token or the same bytes as two tokens gives the same outcome. |
| XmlContent.FailStable | expat/xmlparse.c:2121-2573 | An error that a buffer shows is the same error whatever follows. |
| XmlContent.OneCut | expat/xmlparse.c:1990-2003 | Handing over a buffer and then its unread bytes with the rest comes to parsing both at once, in every state. |
| XmlContent.BufferIndependence | expat/xmlparse.c:2121-2573 | Cutting the input into buffers anywhere gives the same error as the one-buffer parse, or succeeds with it with the same final state, unread bytes and events once adjacent character data is merged; and it succeeds if and only if the one-buffer parse does. |
| XmlContent.SuccessIsEpilog | expat/xmlparse.c:2121-2573 | Content parsing succeeds only by reaching the end tag of the root element. |
| XmlContent.CallsNest | expat/xmlparse.c:2272-2438 | For every input the reported start and end calls nest properly by name and leave exactly the tag stack open; a successful parse closes every element. |
| XmlMarkup.PrintedTag | expat/xmltok_impl.c:522-779 | A start tag or empty-element tag, with attributes or without, is one token of that kind: each of the four kinds exactly for its text. |
| XmlMarkup.PrintedEnd | expat/xmltok_impl.c:379-423 | An end tag, with white space behind its name or not, is one token of its kind. |
| XmlMarkup.PrintedRef | expat/xmltok_impl.c:428-518 | A reference by name is one token for an entity, a reference by decimal or hexadecimal digits one for a character. |
| XmlMarkup.PrintedRemark | expat/xmltok_impl.c:87-123 | A comment of legal characters without two dashes in a row is one token. |
| XmlMarkup.PrintedOrder | expat/xmltok_impl.c:174-279 | A processing instruction is one token up to the first `?>`; with the target `xml` it is that of a declaration. |
| XmlMarkup.TagRawName | expat/xmltok_impl.c:1696-1728 | The raw name that is taken from a tag is the name of the tag, with its prefix. |
| XmlMarkup.EndRawName | expat/xmltok_impl.c:1696-1728 | The same for end tags. |
| XmlReads.CharReads | expat/xmltok_impl.c:781-876 | A character of content is reported as itself, whatever follows: data goes on behind it as if the scanner started there. |
| XmlReads.LineEndReads | expat/xmltok_impl.c:803-830 | A line end in any of its three forms is reported as one line feed. |
| XmlReads.SectionReads | expat/xmlparse.c:3001-3107 | A CDATA section is reported as its start, its characters and line ends, and its end. |
| XmlReads.ElementReads | expat/xmlparse.c:2121-2573 | An element in content, at any depth, is reported as its start tag, its children in order and its end, and parsing goes on behind it. |
| XmlReads.DocumentReads | expat/xmlparse.c:2121-2573 | The text of a well-formed element is parsed without error up to its end, and the calls are those of the element, defined on the tree: the kind of each token, the names of the ends, the text of line ends and references. |
| XmlReads.PiecesRead | expat/xmlparse.c:1990-2003 | And so it is for every cutting of that text into buffers. |
| XmlReads.DeclarationFails | expat/xmlparse.c:2453-2454 | An XML declaration inside content is the error for a misplaced one. |
| XmlReads.MismatchFails | expat/xmlparse.c:2385-2401 | An end tag whose name is not that of the open element is a mismatch, and one without open element is the asynchronous one. |
| XmlReads.CutWaits | expat/xmlparse.c:2186-2197 | Any proper part of a piece of markup is left for the next buffer without a call, and in the last buffer it is an unclosed token or a cut character. |
| XmlShape.RefShape | expat/xmltok_impl.c:428-518 | What is accepted as a reference is the text of one: a name, or digits of one base. |
| XmlShape.RemarkShape | expat/xmltok_impl.c:87-123 | What is accepted as a comment is the text of one. |
| XmlShape.OrderShape | expat/xmltok_impl.c:174-279 | What is accepted as a processing instruction is the text of one, whose target is not `xml` in other letters. |
| XmlShape.TagShape | expat/xmltok_impl.c:522-779 | What is accepted as a tag is the text of one: a name with one colon at most, attributes set apart by white space, quoted values of legal characters and references without `<`. |
| XmlShape.EndTagShape | expat/xmltok_impl.c:379-423 | What is accepted as an end tag is a raw name and white space between `</` and `>`. |
| XmlExactly.MarkupShape | expat/xmltok_impl.c:681-779 | Every token of content that starts with `<` or `&` is the text of a tag, an end tag, a comment, an instruction, a reference or the opening of a section, of its own kind. |
| XmlExactly.SectionIs | expat/xmlparse.c:3001-3107 | A CDATA section that the parse comes out of is the text of one. |
| XmlExactly.ContentIs | expat/xmlparse.c:2121-2573 | Content that the parse comes out of is the text of well-formed nodes and of the end tag of its element. |
| XmlExactly.AcceptsExactly | expat/xmlparse.c:2121-2573 | The parse of content succeeds if and only if the text is that of a well-formed element, with leaves in front of it and anything behind it; and then with exactly the calls of that tree, up to cuts in character data, and with what is behind it unread. |
| XmlExactly.BuffersExactly | expat/xmlparse.c:1990-2003 | The same for every cutting of the text into buffers. |
| XmlParser.FindNameEnd | expat/xmltok_impl.c:1695-1720 | The loop of `nameLength` stops at the end of the name that starts there. |
| XmlParser.Parser.GetBuffer | expat/xmlparse.c:1583-1660 | All unread bytes are kept and there is room for `len` more, whether the bytes are moved down, moved to a larger buffer or left in place; it fails exactly after the final buffer, and then sets the error for a finished parser. |
| XmlParser.Parser.OnContentToken | expat/xmlparse.c:2157-2570 | The switch changes the tag stack, the processor and the reported calls as one complete token requires, with the error codes for mismatched and unexpected tags. |
| XmlParser.Parser.DoCdataSection | expat/xmlparse.c:3001-3107 | The loop over a CDATA section, and its hand-over back to content, is part of the one parse that the reference drives. |
| XmlParser.Parser.DoContent | expat/xmlparse.c:2121-2573 | The content loop ends with the state, the calls, the unread bytes and the error of the reference parse of its buffer. |
| XmlParser.Parser.ParseBuffer | expat/xmlparse.c:1532-1580 | A call reports exactly the parse of the unread bytes with the new ones; a parser that failed reports that again, one that finished sets the error for that, and both change nothing else. |
| XmlParser.Parser.Parse | expat/xmlparse.c:1415-1530 | Storing a piece through the buffer and parsing it comes to parsing the unread bytes followed by the piece. |
| XmlParser.Parser.ParseAll | gamexml.cc:530-552 | A client that reads a file in pieces of any sizes gets the outcome of parsing the whole file at once: same success, same error, and on success the same events up to cuts in character data; by `XmlExactly.BuffersExactly` that is success exactly on documents, with the calls of the document. |
| HashProbe.HashKey | expat/xmlparse.c:5735-5742 | The loop over the name computes the folded hash in 64 bits. |
| HashProbe.StepOdd | expat/xmlparse.c:103-114 | In every table size the probe step is odd and below the size. |
| HashProbe.OddCancels | expat/xmlparse.c:103-114 | An odd factor cancels modulo a power of two. |
| HashProbe.ProbeForm | expat/xmlparse.c:5765-5774 | The stepping of the loop, with its wrap-around, is subtraction of multiples of the step modulo the size. |
| HashProbe.ProbesDistinct | expat/xmlparse.c:103-114 | The first `size` probes of any hash hit pairwise different slots, hence all of them. |
| HashTable.SearchBounded | expat/xmlparse.c:5765-5774 | A search that has not ended has tried no more slots than are in use, so a probe loop in a table with a free slot ends. |
| HashTable.NotThere | expat/xmlparse.c:5765-5774 | At the free slot where a search ends, a record of that name would have been met before. |
| HashTable.PlacedMore | expat/xmlparse.c:5815-5821 | Filling a free slot keeps every record reachable by the search for its name. |
| HashTable.HoldsMore | expat/xmlparse.c:5815-5821 | A new record in a free slot adds exactly its binding to the map that the slots stand for. |
| HashTable.HoldsOne | expat/xmlparse.c:79-85 | The slots determine the map. |
| HashTable.Table.Search | expat/xmlparse.c:5765-5774 | The probe loop ends at the record of that name or at a free slot behind slots in use only. |
| HashTable.Table.Find | expat/xmlparse.c:5765-5774 | A name is found if and only if it is bound, and its record is returned. |
| HashTable.Table.Rehash | expat/xmlparse.c:5779-5812 | Moving to twice the size keeps every binding and the invariant of the table. |
| HashTable.Table.Lookup | expat/xmlparse.c:5744-5821 | `lookup` refines a finite map: a bound name gives its record and changes nothing, an unbound one gives null, or with a creation size a fresh record that is bound in addition to all others. |
| HashTable.Table.Clear | expat/xmlparse.c:5823-5832 | Clearing leaves the empty map. |
| ContentModel.PrintedIsAccepted | expat/xmlrole.c:968-1196 | Every declaration of the productions [46]-[51] of XML 1.0, with white space anywhere between its tokens, is accepted with its name and content tree. |
| ContentModel.StepReads | expat/xmlrole.c:968-1196 | Every step without error adds exactly its token to the text that the state stands for. |
| ContentModel.AcceptsExactly | expat/xmlrole.c:968-1196 | A token sequence is accepted with a name and a content if and only if it is the text of that well-formed declaration up to white space; in particular sequences and choices are never mixed in one group. |
| ContentModel.PrintInjective | expat/xmlrole.c:968-1196 | The text of a well-formed declaration determines it. |
| ContentScaffold.PushPart | expat/xmlparse.c:6047-6093 | Linking a new part behind its parent keeps the encoding of all open groups and opens an empty one. |
| ContentScaffold.CompletePart | expat/xmlparse.c:4430-4436 | A completed part is the next child of the group around it, and all other nodes stay encoded. |
| ContentScaffold.NodesAt | expat/xmlparse.c:6120-6128 | Following `nextsib` visits the siblings in order, each at the place behind its predecessors. |
| ContentScaffold.PackedSnoc | expat/xmlparse.c:6095-6130 | One more sibling packed behind the others keeps the block packed. |
| ContentScaffold.PackedInjective | expat/xmlparse.c:6095-6152 | The flat model determines the tree: the same records and names are packed for one tree only. |
| ElementDecl.Parser.TokenRole | expat/xmlrole.c:968-1196 | The handlers answer each token with the role, the next handler and the nesting level that the recogniser prescribes, and fail exactly when it does. |
| ElementDecl.Parser.NextScaffoldPart | expat/xmlparse.c:6047-6093 | The array grows without losing a part, and the new blank part is the last child of the innermost group. |
| ElementDecl.Parser.GrowGroups | expat/xmlparse.c:4202-4222 | Growing the connector and index arrays together keeps the connectors and indices of all open groups. |
| ElementDecl.Parser.OnGroupOpen | expat/xmlparse.c:4202-4232 | An opening parenthesis adds an open group without connector to the tables and changes no other group. |
| ElementDecl.Parser.OnSequence | expat/xmlparse.c:4233-4238 | A `,` in a group with another connector is the syntax error, and otherwise becomes its connector. |
| ElementDecl.Parser.OnChoice | expat/xmlparse.c:4239-4253 | The same for the choice bar, which also makes a group that is not mixed content a choice. |
| ElementDecl.Parser.OnElement | expat/xmlparse.c:4394-4415 | A name becomes a complete child of the innermost group, and its string space is counted. |
| ElementDecl.Parser.OnGroupClose | expat/xmlparse.c:4417-4448 | A closing parenthesis completes the group as a child of the one around it, or builds the model at the outermost one. |
| ElementDecl.Parser.BuildNode | expat/xmlparse.c:6095-6130 | The recursion packs the node into its slot, its descendants and names behind the cursors, and touches nothing else. |
| ElementDecl.Parser.BuildModel | expat/xmlparse.c:6133-6152 | The node cursor ends at exactly `scaffCount` and the string cursor at exactly `contentStringLen`, and the model is the packed tree. |
| ElementDecl.Declare | expat/xmlparse.c:4373-4448 | Fed with any token sequence, the parser accepts if and only if the sequence is a well-formed element declaration, and then reports its name and the packed form of exactly its content. |
| AttValue.CheckCharRefNumber | expat/xmltok.c:1155-1172 | The test by high byte lets through exactly the characters of production [2] of XML 1.0. |
| AttValue.OnePass | expat/xmlparse.c:4763-4776 | Storing a space only behind a non-space, and taking off a last one, comes to splitting the value into words and joining them by single spaces. |
| AttValue.StoredIsNormalized | expat/xmlparse.c:4701-4716 | The stored value is the normalized one of section 3.3.3 of XML 1.0, for CDATA and for tokenized attributes. |
| AttValue.NoneOpen | expat/xmlparse.c:4827-4850 | No chain of references in a value that expands leads to an entity that is open. |
| AttValue.RecursionFails | expat/xmlparse.c:4827-4850 | A value from which some chain of references passes through one entity twice does not expand. |
| AttValue.RecursionIs | expat/xmlparse.c:4827-4850 | Where recursion is reported there is a chain of references to an entity that is open or that the chain has passed. |
| AttValue.LineEnds | expat/xmlparse.c:4767-4776 | Expansion by the code and by the standard have the same errors, and their values differ by one space for each CR LF pair taken from the text of an entity. |
| AttValue.MeetsStandard | expat/xmltok_impl.c:1229-1240 | The errors are those of section 3.3.3; and a value without error is normalized as there if and only if the attribute is tokenized or the value takes no CR LF pair from the text of an entity. |
| AttValue.LineEndLost | expat/xmltok_impl.c:1229-1240 | The entity `da` of the example in section 3.3.3, CR LF by character references, gives one space in a CDATA value where the standard gives two. |
| AttEscape.PartsMean | expat/xmlparse.c:4713-4776 | A value of characters, white space in all its forms, the five names and numbers in both bases has the value that these say, letter by letter and digit by digit, normalized for its type, whatever is declared; by the code and by the standard. |
| AttEscape.NamedIsNumbered | expat/xmltok_impl.c:1520-1615 | Each of `lt`, `gt`, `amp`, `quot` and `apos` stands for its character, as do the decimal and the hexadecimal number of that character. |
| AttEscape.EscapeBack | expat/xmltok_impl.c:1565-1615 | Escaping the five markup characters of any text and reading the value gives the text back, normalized. |
| AttEscape.EntityMeans | expat/xmlparse.c:4777-4853 | A reference to another entity is an error or nothing if it is undeclared, its own error each for a declaration in a parameter entity, an unparsed and an external entity, and else the value of the text. |
| AttEscape.SelfRecursive | expat/xmlparse.c:4827-4831 | An entity whose text refers to itself is the error for recursion. |
| AttStore.AttributeValueTok | expat/xmltok_impl.c:1199-1255 | The loop returns the first token of a value: plain bytes up to a reference, white space or `<`. |
| AttStore.ScanNumber | expat/xmltok_impl.c:1520-1560 | With its early exit the loop returns the number of the digits if that is a character, and -1 otherwise. |
| AttStore.AcceptedRef | expat/xmltok_impl.c:426-490 | Character references that the scanner accepts have only digits of their base in front of the semicolon, so the number reader needs no bounds. |
| AttStore.Parser.PutEntityRef | expat/xmlparse.c:4777-4853 | A reference is answered with the predefined character, the expansion of the entity with its flag set, or the error of the first check that fails; every flag is as before. What each name stands for is said letter by letter in `AttEscape`. |
| AttStore.Parser.AppendAttributeValue | expat/xmlparse.c:4717-4863 | One pass over the text, entering entities on the way, ends, restores every `open` flag, and stores the recursive expansion of the text or reports its first error. |
| AttStore.Parser.StoreAttributeValue | expat/xmlparse.c:4701-4716 | The pool holds the normalized value, or the error is that of the expansion, and no entity is left open; `AttEscape.PartsMean` and `AttEscape.EntityMeans` say what that value is. |
| AttList.AttributesFound | expat/xmltok_impl.c:1427-1518 | On a start tag that the tokenizer has accepted, the attribute scan ends inside the tag and finds only values that the tokenizer has passed over, with the same ends. |
| AttList.GetAtts | expat/xmltok_impl.c:1427-1518 | The state loop returns the number of attributes and fills in the first `attsMax` of them with their name, bounds and flag. |
| AttList.FlaggedText | expat/xmltok_impl.c:1479-1500 | A value that stays flagged as normalized stands for itself: no reference and no white space but spaces. |
| AttList.FlaggedStored | expat/xmltok_impl.c:1479-1500 | One pass over a flagged value stores all of it and leaves no trailing space. |
| AttList.FastPath | expat/xmlparse.c:2651-2682 | A flagged value is a fixed point of CDATA and of tokenized normalization, whatever the declarations are. |
| AttList.Utf8Tails | expat/xmltok.c:79-110 | A character that passes the UTF-8 validity tests has no space behind its first byte, which is what normalization needs of the encoding. |
| AttList.ValueWhole | expat/xmltok_impl.c:594-619 | Every value that the tokenizer has passed over meets what normalization requires of its text. |
| AttList.StoreValue | expat/xmlparse.c:2651-2682 | Storing a flagged value as it is and normalizing any other gives the normalized value either way. |
| AttTags.TagListed | expat/xmltok_impl.c:1427-1518 | The attribute list of the text of a tag has one entry for each attribute, in order, with the place of exactly its name and exactly its value. |
| Unicode.EncodedBits | expat/xmltok.c:1174-1209 | The payload bits of an encoded character are its code point. |
| Unicode.ValidExactly | expat/xmltok.c:79-110 | The `UTF8_INVALID` tests accept exactly the byte forms that the encoder produces (RFC 3629 sections 3-4): no overlong form, surrogate, U+FFFE, U+FFFF or number above U+10FFFF. |
| Unicode.Injective | expat/xmltok.c:1174-1227 | UTF-8 and UTF-16 determine the text. |
| UtfConvert.UnitBytes | expat/xmltok.c:524-560 | The two and three byte cases of the UTF-16 converters write the UTF-8 form of the character. |
| UtfConvert.PairBytes | expat/xmltok.c:562-580 | The four bytes computed from a surrogate pair by plane are the UTF-8 form of the character. |
| UtfConvert.Utf8ToUtf16 | expat/xmltok.c:326-366 | The converter reads and writes exactly the characters that have room, and stops in front of the next. |
| UtfConvert.Utf16ToUtf8 | expat/xmltok.c:524-585 | The same in the other direction. |
| UtfConvert.FitMost | expat/xmltok.c:326-366 | What is converted is the longest run of whole characters that fits in the output. |
| UtfConvert.Resumed | expat/xmltok.c:326-366 | For every sequence of output limits, resumed calls together write whole characters in order, without loss. |
| UtfConvert.ResumedAll | expat/xmltok.c:326-366 | If each limit leaves room for one character, as many calls as there are characters convert the whole text. |
| UtfConvert.Inverse | expat/xmltok.c:524-585 | The two converters undo each other on whole texts. |
| UtfConvert.ReportData | expat/xmlparse.c:2526-2545 | The loop that hands character data over through a bounded buffer ends, gives the handler the whole text, and never part of a character. |
| Endian.Write32 | lib/endianrw.h:284-310 | The four bytes written are read back as the number modulo 2^32, and no other byte changes. |
| Endian.Write16 | lib/endianrw.h:231-250 | The same for 16 bits. |
| ZipSearch.EcdFindSig | zip.cc:50-66 | The backward loop finds the last signature with room for an end record, or there is none. |
| ZipSearch.Reached | zip.cc:96-130 | The growing buffer stays within the window of the last 32768 bytes rounded to the alignment, and the last buffer is that window. |
| ZipSearch.CentRead | zip.cc:73-147 | The search ends; it uses the position that a search of the whole file finds if that is in the window; if the stored start lies inside the file it returns exactly the bytes from there to the end, on both paths, and otherwise fails. |
| ZipDirectory.HeadersDetermined | zip.cc:836-866 | The headers read so far are a beginning of every directory that the bytes have. |
| ZipDirectory.HeadersUnique | zip.cc:836-866 | Bytes have one directory at most. |
| ZipDirectory.HeadersOf | zip.cc:836-866 | The headers up to the first place where none can be read are those of every directory that the bytes have. |
| ZipEntry.Set | zip.cc:341-443 | An entry is set exactly for the supported methods, and for stored data of the declared size, with the compression and flags of the method. |
| ZipEntry.MethodRoundTrip | zip.cc:225-271 | Setting the method that was got keeps the compression and variant bits and gives the same method again. |
| ZipEntry.LoadCent | zip.cc:682-725 | An entry is read if and only if a complete header with its strings is there, and the skip is its length. |
| ZipEntry.LoadDescriptor | zip.cc:528-546 | A data descriptor is accepted, with or without its signature, exactly if it agrees with the directory; `ZipLayout.DescriptorExactly` writes out where its crc and its two sizes stand. |
| ZipEntry.LoadLocal | zip.cc:473-622 | A local record is loaded exactly if it agrees with its directory header and fits in front of the next record, and the end position is that of the record. |
| ZipLayout.HeaderExactly | zip.cc:700-774 | A directory header is read as an entry if and only if the bytes of that entry, field by field at their places, stand there. |
| ZipLayout.LocalExactly | zip.cc:472-526 | A local header passes if and only if its fields stand at their places and agree with the directory, with the leniency for streamed entries written out. |
| ZipLayout.DescriptorExactly | zip.cc:528-546 | A descriptor passes if and only if the crc, the compressed and the uncompressed size stand behind each other, right or zero, behind the signature or, in the last twelve bytes, without it. |
| ZipLayout.RecordExactly | zip.cc:560-629 | A local record loads with its data and its end if and only if header, data and, with bit 3 set, descriptor stand there. |
| ZipLayout.StreamedLoads | zip.cc:604-629 | An ordinary streamed record, with a descriptor with signature, loads up to the end of the descriptor. |
| ZipLayout.BareStreamedLoads | zip.cc:604-629 | So does one with a descriptor without signature that ends at the limit. |
| ZipEntry.CompressedRead | zip.cc:278-329 | The data comes from memory, or else is what loading the entry from its file would give. |
| ZipEntry.SaveLocal | zip.cc:628-680 | A local record with every field, name and data is appended, with descriptor bit cleared; an empty name fails. |
| ZipEntry.SaveCent | zip.cc:731-774 | A directory header with every field and string is appended, with the offset of the local record. |
| ZipEntry.SaveEnd | zip.cc:1104-1120 | The end record with count, size, start and comment is appended. |
| ZipLoad.LoadedDisjoint | zip.cc:955-1038 | In a file that loads, the local records occupy pairwise disjoint byte ranges, all below the directory. |
| ZipLoad.LoadStep | zip.cc:958-1028 | One turn loads one entry that was not loaded, strictly forward, and keeps the account of what is loaded. |
| ZipLoad.HoleFails | zip.cc:972-996 | In the pedantic mode a hole in front of a record or of the directory is an error. |
| ZipLoad.Finished | zip.cc:1031-1038 | When the walk ends, every entry is loaded if and only if all records are valid, disjoint and below the directory, and then each with its own data. |
| ZipFile.Zip.ReadDirectory | zip.cc:826-892 | The directory read is the one that the bytes have; it fails exactly if they have none. |
| ZipFile.Zip.Open | zip.cc:811-898 | A file opens if and only if it has a directory, and then with exactly that directory; a missing file opens as an empty archive. |
| ZipFile.Zip.NextEntry | zip.cc:961-970 | The entry found has the least offset from the current position on; none is found only if there is none. |
| ZipFile.Zip.LoadTurn | zip.cc:958-1028 | A turn of the loop makes progress, or fails only where the directory cannot be loaded. |
| ZipFile.Zip.Load | zip.cc:944-1048 | Loading succeeds if and only if the records of all entries, in any directory order and with holes, are valid, disjoint and below the directory; every entry then has the data of its own record. `ZipLayout.RecordExactly` writes out byte by byte which records are valid. |
| ZipFile.Zip.Unload | zip.cc:919-927 | Only the data is dropped. |
| ZipFile.Zip.SizeNotZero | zip.cc:1050-1062 | The count is zero exactly if every entry is empty. |
| ZipFile.Zip.Save | zip.cc:1067-1153 | The file afterwards holds exactly the local records, the directory and the end record of the entries; if all entries are empty it is removed, and if an entry has no name it stays as it was. |
| ZipFile.Zip.Insert | zip.cc:1183-1214 | A copy with the same method, sizes, crc, times and data under the new name is the new last entry; on failure nothing changes. |
| ZipRoundTrip.ReadBack | zip.cc:682-774 | A saved directory header reads back as the same entry, descriptor bit cleared and offset set. |
| ZipRoundTrip.LoadBack | zip.cc:560-680 | A saved local record loads, with the data saved, and ends where the next one starts. |
| ZipRoundTrip.SavedLoads | zip.cc:944-1153 | The records of a saved file can be loaded, in the pedantic mode too, with the data of every entry. |
| ZipRoundTrip.SavedDirectory | zip.cc:811-898 | The directory of a saved file reads back with all entries and the comment. |
| ZipRoundTrip.SavedOpens | zip.cc:811-898 | A saved file opens with the saved directory if and only if, in the bytes of the end record and its comment, the last signature with room behind it is in the search window and has the start of the directory 16 bytes on: a condition on the entries and the comment before the save. |
| ZipRoundTrip.CleanComment | zip.cc:96-147 | That condition holds if no signature is in the counts, size, start and comment length of the end record or in the comment, and the record with its comment fits in the window. |
| ZipRoundTrip.FakeEnd | zip.cc:96-147 | A comment that is itself an end record makes the saved file unreadable. |
| ZipRoundTrip.FieldIsSig | zip.cc:96-147 | The condition fails too for a comment of sixteen letters, without any signature, if the start of the directory has the bytes of the signature. |
| ZipRoundTrip.FieldFails | zip.cc:96-147 | Such a file does not open at all. |
| ZipRoundTrip.OneLargeFile | zip.cc:96-147 | There are entries in range for which that happens. |
| ZipRoundTrip.OpenAndLoad | zip.cc:811-1048 | A file opens and loads if and only if it has a directory whose records can be loaded, and then with these. |
| ZipRoundTrip.SavedReads | zip.cc:1067-1153 | What is read from a saved file are the saved entries: name, data, crc, sizes, method, dates, central extra field and comments, with only the descriptor bit, the offset and the local extra field not kept. |
| ZipRoundTrip.Reopen | zip.cc:811-1153 | Save, then open and load: the same entries and comment come back from the same place if and only if the condition on the end record held before the save; without a comment it does. |
| RomZip.SwapBag | ziprom.cc:223-244 | Members that change places keep the sum of the two bags of contents. |
| RomZip.MoveExactly | ziprom.cc:138-156 | A move keeps every content but that of the rejected member it overwrites; nothing is lost if and only if the reject zip has no member of the new name. |
| RomZip.RemoveExactly | ziprom.cc:128-136 | Removing to the reject zip loses nothing if and only if not both zips have a member of that name; else it loses exactly the rejected one. |
| RomZip.AddExactly | ziprom.cc:158-206 | The same for adding over a member, with the copy gained. |
| RomZip.RenameExactly | ziprom.cc:208-221 | The same for renaming, whether or not the old name is found. |
| RomZip.MoveEffect | ziprom.cc:138-156 | Moving a member away changes what is under no other name, in either zip. |
| RomZip.AddEffect | ziprom.cc:158-184 | Adding over a member binds the new name and changes no other, in either zip. |
| RomZip.RenameEffect | ziprom.cc:208-221 | The new name has the content of the old one, which is gone; no other name changes, in either zip. |
| RomZip.SwapEffect | ziprom.cc:223-244 | A swap with the rejected member of that name, or its return, binds the name to it, changes no other name in either zip and keeps all contents. |
| RomZip.RejectedKeeps | ziprom.cc:128-136 | Behind a removal to the reject zip the removed member is in it under its name, and what is there under other names stays. |
| RomZip.SwapKeeps | ziprom.cc:223-244 | The same behind a swap. |
| RomZip.OnDisk | ziprom.cc:95-114 | After a save every content that is not empty is in the file as often as in memory. |
| RomZip.ZipRom.Move | ziprom.cc:138-156 | The member goes to the reject zip under the new name, over the member of that name there, which is deleted even if nothing can be moved; the contents of both zips stay the same if and only if there was no such member. |
| RomZip.ZipRom.RemoveTo | ziprom.cc:128-136 | The first member of that name goes to the reject zip. |
| RomZip.ZipRom.AddOver | ziprom.cc:158-206 | The copy is the last member, and the member of that name went to the reject zip; only the copy is new and nothing is lost if and only if not both zips had the name. |
| RomZip.ZipRom.Rename | ziprom.cc:208-221 | The name changes in place after the target name is cleared to the reject zip, and without a source it fails after the clearing; nothing is lost if and only if not both zips had the target name. |
| RomZip.ZipRom.Swap | ziprom.cc:223-244 | The two members change places, and the multiset union of the contents of both zips is exactly preserved. |
| RomZip.ZipRom.Save | ziprom.cc:95-114 | The file holds every member that is not empty. |
| RomArchive.ZipArchive.OpenAndInsert | ziprom.cc:294-315 | The zip is added with a copy of its members, and the index covers every member of every zip. |
| RomArchive.ZipArchive.Erase | ziprom.cc:341-344 | One zip is taken out; the index, from which nothing is removed, still covers all others. |
| RomArchive.ZipArchive.Update | ziprom.cc:317-339 | The zip of that path is replaced, added or, if empty, taken out, and the index covers every member of every zip. |
| RomArchive.ZipArchive.FindIter | ziprom.cc:346-400 | The linear search returns the first member with that size and crc in the first zip that has one, or none if there is none. |
| RomArchive.ZipArchive.FindExclude | ziprom.cc:374-408 | Through the index, `find` and `find_exclude` return what the search of every member returns, although stale keys are never removed. |
| RomFind.StatRomZip | scan.cc:132-196 | The status sorts every member and rom into exactly the sets of good, wrong and missing roms and of binary, text and garbage members. |
| RomFind.FromUnknown | scan.cc:419-442 | A rom found among the unknown members is renamed into place; a wrong member of its name is moved away. |
| RomFind.FromSelf | scan.cc:444-471 | A rom found in the zip itself is copied. |
| RomFind.FromReject | scan.cc:473-504 | A rom found in the reject zip is copied, or swapped with all contents kept if it has the name already. |
| RomFind.FromOther | scan.cc:506-521 | A rom found in another zip through the index is copied, and if it is not found no other zip has it. |
| RomFind.RomScanAdd | scan.cc:403-524 | A rom is placed if and only if the zip may be changed and the zip, the reject zip or another zip holds its size and crc; what is overwritten in the reject zip is exactly the member of its name, and only if the zip had a wrong member of that name and the rom did not come back from there under its own name. |
| RomRun.PlaceRoms | scan.cc:543-588 | The loop over the missing or wrong roms keeps the books and every good rom, moves away wrong members only of roms that are then good, and leaves a rom only if no zip has it or nothing may be changed. |
| RomRun.MoveAway | scan.cc:590-608 | The loops over binary and text members move all of them: afterwards each is in the reject zip under its name and not in the zip, each loses exactly the content of its namesake there, and nothing changes under any other name in either zip. |
| RomRun.DeleteGarbage | scan.cc:610-620 | Exactly the members classed as garbage are deleted. |
| RomRun.Repair | scan.cc:526-620 | All steps together balance the books and do what the books say: a moved member is in the reject zip and gone from the zip, deleted and renamed ones are gone, and nothing changes under other names; every good rom is kept, and a rom is left missing only if no zip had it. |
| RomRun.MembersAfter | scan.cc:526-620 | Member by member: a moved one, or a wrong one that a rom took the place of, is in the reject zip with its content, under its name; it is not in the zip unless the rom of that name is; deleted and renamed ones are gone, placed ones match; and under any other name both zips have what they had. |
| RomRun.Finish | scan.cc:627-644 | No rom is left as missing or wrong exactly if the zip then holds every rom with its name, size and crc. |
| RomRun.TakenCount | ziprom.cc:138-156 | A set of moved names overwrites as many members as it has names that are in the reject zip. |
| RomRun.RomScan | scan.cc:526-649 | For any reject zip and any operations: what was in the zip and the reject zip, and what was copied, is in one of them afterwards, in memory and (if not empty) on disk, or was garbage, or was overwritten in the reject zip by the moved member of its name, copy by copy; exactly which members are moved, deleted, placed and renamed is said, and each really is, with nothing changed under other names (`RomRun.MembersAfter`); nothing is invented; no good rom is lost; the zip is recorded as good if and only if it holds every rom; with active fix on a writable zip a rom is left missing only if no zip had its size and crc but in overwritten members; a read-only zip does not change. |
| RomRun.ConservedExactly | doc/advscan.txt:54-58 | Nothing but garbage is lost if and only if each overwritten content was copied anew; without copies, if and only if no moved name was in the reject zip. |
| RomRun.SafeScan | doc/advscan.txt:54-58 | Seen before the scan: if no member that it may move has a name of the reject zip, nothing but garbage is lost; and without repairs only then. |
| RomRun.ScanLoses | doc/advscan.txt:54-58 | After a scan that moves an unknown text file over another one of that name, the overwritten content is in neither zip. |
| RomRun.LosingScan | doc/advscan.txt:54-58 | A scan that does this. |
| RomRun.IndexStays | scan.cc:403-524 | Repairs only insert contents that are indexed, so the index stays complete. |
| RomRun.ScanIndexed | scan.cc:1139-1165 | After a scan and the update with the reject zip the index still covers every member of every zip. |
| RomRun.OnDiskBalanced | scan.cc:622-648 | The books that balance in memory balance for the saved files, but for empty contents. |
| Merge.EndlessExactly | game.cc:462-488 | The loop over the chain of a game does not end if and only if the game leads into a set of games whose links stay in it, none of which names itself or is the game. |
| Merge.EndlessArchive | game.cc:462-488 | An archive where it does not end, for a clone of one of two games that name each other; for these two it does. |
| Merge.AcyclicEnds | game.cc:462-488 | Without `romof` cycles every loop ends. |
| Merge.AboveIs | game.cc:460-489 | The games above one that is on no cycle are its parent and those above that. |
| Merge.FamilyKept | game.cc:460-489 | When any game is reduced, every game and its ancestors together keep their sizes and crcs, cycles or not. |
| Merge.BetweenNext | game.cc:460-489 | One more reduction keeps the state: families keep their keys, a reduced game shares no key with a game above it, and on no cycle it has exactly its roms that no game above it had at the start. |
| Merge.RemoveCrc | game.cc:279-288 | Exactly the roms whose size and crc are not in the set stay. |
| Merge.GameArchive.ReduceGame | game.cc:460-489 | Wherever the loop ends, it takes the turns of the walk and leaves the game exactly its roms whose size and crc no other game of its family has now. |
| Merge.GameArchive.Reduce | game.cc:460-489 | On every archive where the loops end, the in-place reduction in any order reaches that state for all games. |
| Merge.Merged | game.cc:460-489 | So without cycles each game has exactly its original roms whose size and crc no original proper ancestor has, in whatever order the games are taken. |
| Working.BelowSon | game.cc:356-375 | What descends from a game descends from exactly one of its sons. |
| Working.WorkingSons | game.cc:356-375 | A game has a working descendant-or-self if and only if it works or one of its sons has one. |
| Working.PathIsWay | game.cc:382-406 | The way marked from a game leads over games that do not work to a working one, and there is one if and only if some descendant-or-self works. |
| Working.GameArchive.GameWorkingSubsetCompute | game.cc:356-375 | The recursion ends, marks exactly the games below that have a working game, and tells whether there is one. |
| Working.GameArchive.GameWorkingParentSubsetCompute | game.cc:382-406 | The recursion marks exactly the way to the first working game, sons in order. |
| Working.GameArchive.Finish | game.cc:511-568 | Adjusting the links, computing the sons and the two marking loops set the flags of every game as the families require. |
| Working.SubsetExactly | game.cc:551-558 | `working_subset` holds if and only if the game is a resource or has a working descendant-or-self. |
| Working.OneFamily | game.cc:341-349 | With resources only at the top, no game is in two families. |
| Working.OnePerFamily | game.cc:560-567 | `working_parent_subset` holds in each family exactly on the way from its root to one working game, the only working one of it, or nowhere if none works. |
| Working.ParentKept | scan.cc:1774-1787 | The flags of a game imply those of the game that it is a `romof`. |
| Working.KeepsExactly | scan.cc:1774-1777 | Without the condition on resources, the working filter keeps every `romof` game if and only if each resource stands below a resource or a game with a working one. |
| Working.ParentsInSubset | scan.cc:1779-1787 | What the working_parent filter keeps are exactly the games with that flag, which all have the other one. |
| Working.ParentsKeepExactly | scan.cc:1779-1787 | Without the condition on resources, the working_parent filter keeps every `romof` game if and only if each resource stands below a resource or a game on the way to the first working one of a family. |
| Working.ResourceAlone | scan.cc:1774-1787 | Both filters keep a resource and drop its `romof` game where that has nothing working. |
| Working.GameArchive.FilterGames | game.cc:570-582 | The loop that erases leaves exactly the games that pass. |
| Working.FilterWorking | scan.cc:1774-1787 | After the working or the working_parent filter every game left has the game that it is a `romof`. |
| InfoTokens.SkipSpelled | lib/readinfo.c:229-267 | A balanced value is skipped as a whole, whatever follows. |
| InfoTokens.SkippedIsSpelled | lib/readinfo.c:229-267 | What is skipped is a balanced value. |
| InfoTokens.SkipExactly | lib/readinfo.c:229-267 | `info_skip_value` consumes exactly one balanced value, and reports an error if and only if none is there. |
| InfoReader.Reader.GetSymbol | lib/readinfo.c:141-151 | The loop with its put-back reads one symbol and leaves the stream at the parenthesis or behind the space that ended it. |
| InfoReader.Reader.GetString | lib/readinfo.c:160-204 | The loop reads a string with its escapes, or reports an error exactly where it is malformed. |
| InfoReader.Reader.TokenGet | lib/readinfo.c:205-227 | Each call returns the next token of the text and leaves the stream at the rest. |
| InfoReader.Reader.SkipValue | lib/readinfo.c:236-267 | The recursive method consumes what the definition of a value says, and ends. |
| InfoLoad.Wraps | strcov.c:65-104 | Reading digits with 32-bit wrap-around gives the exact number modulo 2^32. |
| InfoLoad.StrDec | strcov.c:65-79 | The whole text is consumed if and only if it is decimal, and then the value is its number modulo 2^32. |
| InfoLoad.StrHex | strcov.c:87-104 | The same for hexadecimal digits. |
| InfoLoad.GameArchive.LoadRom | gameinfo.cc:75-111 | The loop over the fields of a rom reads them all, skips unknown ones, and fails exactly on malformed ones. |
| InfoLoad.GameArchive.LoadGame | gameinfo.cc:47-136 | The loop over the fields of a game reads what its tokens mean, or fails exactly if they mean nothing; `InfoMeaning.GameExactly` says what fields mean. |
| InfoLoad.GameArchive.LoadInfo | gameinfo.cc:41-143 | The whole text is loaded as the games that its tokens mean; `InfoMeaning.LoadsExactly` says which these are. |
| InfoMeaning.RomReads | gameinfo.cc:75-111 | Fields are read as a rom if and only if they are legal: with the last name, size and crc, and as nodump exactly if some flag is `nodump`. |
| InfoMeaning.DriverReads | gameinfo.cc:112-124 | A driver makes a game not working if and only if one of its fields is `status preliminary`. |
| InfoMeaning.GameMeans | gameinfo.cc:47-136 | Fields are read as a game if and only if they are legal, and the game has the last of each text, exactly the samples, of the roms of one name the first, and works unless some driver says `preliminary`. |
| InfoMeaning.GameExactly | gameinfo.cc:47-136 | Tokens are read as a game if and only if they spell such fields, and as the one game that these mean. |
| InfoMeaning.LoadsExactly | gameinfo.cc:41-143 | A text loads if and only if its tokens spell a legal listing, and as exactly the games of it: of the entries of one name the first, resources where the key says so, unknown fields skipped. |
| InfoMeaning.QuotedBack | lib/readinfo.c:161-208 | A text in quotes stands for the characters that its letters, its eleven escapes and its hexadecimal codes mean. |
| InfoMeaning.QuotedIs | lib/readinfo.c:161-208 | And every text in quotes that is read is made of such letters. |
| InfoMeaning.HexForms | strcov.c:83-104 | A prefix `0x` changes no crc, and small and capital digits have the same value. |
| InfoPrint.PrintedTokens | lib/readinfo.c:141-226 | A text of legal symbols, parentheses and white space between words is read as exactly its tokens. |
| InfoPrint.NumbersBack | diff.cc:52-61 | Sizes printed in decimal and crcs printed with eight digits are read back. |
| InfoPrint.Stream.OutputGame | diff.cc:63-74 | The loop writes the text of the game and nothing else. |
| InfoPrint.RomBack | gameinfo.cc:75-111 | The printed fields of a rom are read as its name, size, nodump flag and, when dumped, crc. |
| InfoPrint.AllBack | gameinfo.cc:41-143 | The tokens of any printed games are read as these games. |
| InfoPrint.LoadsBack | diff.cc:52-74 | The text printed for any games with legal names means these games. |
| InfoPrint.GameOfExactly | diff.cc:52-74 | A game read back has exactly its roms, each with size, nodump flag and, when dumped, crc. |
| InfoPrint.RoundTrip | diff.cc:52-74 | Printing games with distinct legal names and loading the text gives these games and no others. |

## Left out

XML parser

- XmlParser.Parser.OnContentToken: what the handlers of a token compute is a parameter of
  content parsing, the attributes of a start tag as an error or none, the text of a reference
  as bytes or an error. Attribute values are modelled on their own; the two are not plugged
  together.
- Entity references in content that open an internal entity or call an external one, and
  the suspend and resume calls.
- Namespaces, prefixed names and default attributes in `storeAtts`, and duplicate attributes.
- The default handler, and handlers that are not set.
- Failing memory allocation, and the 32-bit overflow of buffer sizes in `XML_GetBuffer`.
- `XML_Parse` keeps pieces that were consumed completely out of the buffer; the model always
  stores a piece first. The call without bytes that only marks the end is a piece of length 0.
- Tag names are kept as values, so `storeRawNames` has nothing to do.
- Line and column numbers, and the position of errors.
- The prolog and epilog, but for element declarations; an element declaration without a
  handler, whose tables are not filled.
- Element type names are names without the string terminator, as `ContentScaffold.PackedInjective` says.
- Encodings with two bytes for each ASCII character in the tokenizer, and encodings set by
  the application. Byte classes are a table; where a lemma needs to know it, `XmlPrint.Ascii`
  writes out what it has for the bytes that are markup.
- XmlExactly.AcceptsExactly: in front of the root element the model lets leaves pass, because
  the prolog is not modelled; the source starts content parsing at the root's own tag.
- XmlParser.Parser.ParseAll: character data is compared byte by byte, not call by call,
  because the cuts do depend on the buffers.
- AttStore.Parser.StoreAttributeValue: the pool is the string that is being built; on an
  error its content is not described.
- AttList.GetAtts: asks for a tag, as the source does; `AttList.AttributesFound` shows that
  accepted tags are.
- UtfConvert.Utf8ToUtf16: on valid text only, as in the source, which checks it before. The
  copying converters `utf8_toUtf8` and UTF-16 to UTF-16 are not modelled.
- The hash of a name in 64 bits only, and of the bytes in front of the terminator.

Zip engine

- ZipFile.Zip.Open: reading past the end of the directory buffer, which the source does not
  check, is a failure here; of entries read before a failure nothing is said.
- ZipFile.Zip.Load: offsets within 30 bytes of 2^32, where the source adds in 32 bits.
- Files that others change between open and load, failing writes but for those of no bytes,
  renaming and deleting of files, signals.
- Compressing, decompressing and computing crcs; `insert_uncompressed`, `time_set`.
- `close` and `reopen`. After a save the entries in memory keep the descriptor bit that the
  written headers do not have.
- ZipFile.Zip.Save: for numbers that do not fit, the fields hold their low bits; the round
  trip is for entries in range.

Repair machine

- Names are strings with their case folded. Insertion into a zip does not fail for an
  unsupported method, and data is not unloaded and loaded again in between.
- `rom_add`, `unknown_scan`, moving unknown zips, samples and disks, and everything printed.
- RomFind.StatRomZip: the sets of nodump roms, which are only reported.
- RomRun.RomScan: a zip that holds two members of one name.
- Sets of roms are walked in any order; the source walks them by name.

Games

- Merge.GameArchive.Reduce: disks and samples; for the latter `ss_remove_name` computes a set
  that it does not store. Games have an order of names in the source, which does not matter.
- Working.GameArchive.Finish: sample parents, and the messages.
- InfoLoad.GameArchive.LoadInfo: the text fields of a game are one map from field names; a
  symbol holds no NUL; row and column for the error message are not kept.
- InfoReader.Reader.GetString: where a malformed string leaves the stream.
- Reading XML game lists through the parser, and searching clones by their roms.
