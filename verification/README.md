# Verified model of the STEP and EXPRESS core

A Dafny 4.11 model of the parts of the repository whose correctness is easy to get wrong, with proofs of what they
promise. `dafny verify dfyconfig.toml` checks all of it.

| module | models |
|---|---|
| `Options`, `CStrings`, `Numerals` | a missing value, the end of a C string, a law of numerals |
| `CharacterCodes` | bytes, 32-bit words and hexadecimal numerals shared by the codec |
| `LiteralText` | bytes and numerals as string literals write them |
| `CharacterDecoder` | one turn (`Step`) and whole runs (`Scan`) of the string decoder of ISO 10303-21, section 6.3.3 |
| `SpfStream` | the stream under the decoder and the loops of `get` and `skip` as they run on it |
| `DirectiveGrammar` | the control directives, their spelling and their meaning |
| `DirectiveTexts` | what reading each directive adds, with the directives and their digits written out as literals |
| `CharacterEncoder`, `EncodedForm` | the encoder, its round trip with the decoder, and the one form an encoded string has |
| `DecoderInvariants`, `ReadingEnds` | what holds of the decoder on every text, well-formed or not: both loops in step, where reading ends, what is rejected |
| `OrderlyStates`, `AcceptedText` | the converse of the grammar: which texts are read through the states of well-formed text |
| `Ordering`, `Digraph`, `TopoGraph` | walks, cycles, topological lists, and Kahn's algorithm on the class `TopoGraph` |
| `QueueOrder` | the order of its result, said of the list alone |
| `ExpressSchema`, `ExpressPreprocess` | schema arrays, lookups, tokenizer, declaration pass and name indexes |
| `EntityLinks`, `LastDefinitions` | how parsed entity definitions become supertype and subtype links, and which definition counts |
| `PgSqlGenerator`, `SchemaPipeline` | the table order of the SQL generator, and text to tables end to end |
| `GlobalId`, `GlobalIdDigits` | base-64 numerals and the 22-character GlobalId, and its digits by the table written out |
| `StringTools`, `Stripping` | `replace`, the splitters, `merge_string`, both `strip` functions |
| `Subreplacing` | `subreplace`: what it yields, when it ends, and when it agrees with `replace` |
| `StringOrder`, `IniFile`, `IniText`, `IniRoundTrip`, `IniExactness` | the INI store, its loader and printer, their lines as literals, and what survives a round trip |

Code that updates state is a method or a class: each loop is proved equal to a specification function (`Scan`,
`SkipScan`, `Encoded`, `KahnOrder`, `Tokens`, `Declare`, `Generated`, `Compressed`, `Expanded`, `LoadText`, `Dump`,
`Replaced`, `Turns`, `Pieces`, `LinkAll`, ...), and the theorems are about those functions. Tables, keywords, separators
and tags are pinned by laws that write them out as literals and do not call the function that holds them.

## How the program is represented

- Bytes are 0..255 and code points are 32-bit words. `char` is taken as signed: a byte from 0x80 up becomes a negative
  number before it is offset or widened, and a widened one is kept as the bit pattern of a 32-bit `wchar_t`.
- `parse_state` is a 32-bit word and flags are combined with wrapping `+`. Malformed text carries into neighbouring
  flags exactly as it does in the program; `MalformedDirectiveIsAccepted` shows one such text.
- `\PF\` is taken by the branch for `\N\` and `\F\` and is ignored; it does not select code page 6.
- The ISO 8859 tables are a parameter (`CodePages`), 16 pages of 256 entries with 0 for "not defined".
- The locals of the two decoding loops are one value each (`Decoder`, `Skipper`), and a turn of a loop is a function of
  it (`Step`, `SkipStep`) with the tests in the order of the code.
- The stream buffer is followed by a NUL in the model. `Inc` and `increment_at` pass over line breaks, so a reader sees
  the character at its offset and after it only visible characters (`Seen`).
- What stops or breaks the program is an outcome: `Rejected` and `Undefined` for the decoder's exceptions, `NoOrder`,
  `NullEntity`, `RootHasSupertype` and `UnsetSubtypes` for the generator, a `LinkStatus` for the definition of an
  entity, `OutOfRange` and `NotDecodable` for `expand`, `stopped` or a false `completed` where the declaration pass
  exits, and `Undefined` where `strip` is handed a blank key or value and reads outside the string.
- `switch_session` names the section in use where the program points to its map; map nodes do not move, so both denote
  the same section.
- `getline` stores at most 1023 characters; a longer line ends the loading, as the failed stream does.
- `IniFile::put` keeps the first value of a key (`map::insert`, src/common/ini_parser.cpp:76), although
  src/common/ini_parser.h:69 says that it replaces it. The code is modelled.
- `new_entity` leaves the number of subtypes unset (src/express_parser/express_defs.c:50-59) and only a definition sets
  it, so `subtypes` of an entity is an `Option`. The generator reads the number of every declared entity.
- Schema arrays hold 500 types and 1000 entities. The assertion on types compares with the entity limit
  (src/express_parser/express_defs.c:79); the model asks for at most 500 types.

## Model

| member | source | states |
|---|---|---|
| SpfStream.Stream.IncrementAt | src/ifcparse/IfcParse.cpp:351-357 | the offset moves to the next character that is not a line break, or to the end |
| SpfStream.Stream.Inc | src/ifcparse/IfcParse.cpp:254-264 | the cursor moves the same way and the end-of-file flag is raised exactly when it arrives at the end |
| SpfStream.Stream.Increment | src/ifcparse/IfcCharacterDecoder.cpp:107-113 | the pure mode moves only the local offset, the other only the cursor, both to the next visible character |
| SpfStream.Stream.Get | src/ifcparse/IfcCharacterDecoder.cpp:124-195 | for every buffer: the text read, or the exception, is that of a run over the visible characters, and the offset it stops at is the one reached by consuming exactly what was read; the pure mode leaves the cursor alone, the other mode the local offset |
| SpfStream.Stream.Skip | src/ifcparse/IfcCharacterDecoder.cpp:247-308 | for every buffer: the cursor ends at the offset reached by consuming exactly what a run over the visible characters passes, in the same way |
| SpfStream.LineBreaksAreInvisible | src/ifcparse/IfcParse.cpp:254-264 | the characters read are those of the buffer in order without 0x0A and 0x0D |
| DirectiveGrammar.ShiftAppendsDigit | src/ifcparse/IfcCharacterDecoder.cpp:168-171 | shifting a digit into the accumulator of fewer than eight digits loses nothing: it then denotes the longer numeral |
| DirectiveGrammar.FeedSelectPage | src/ifcparse/IfcCharacterDecoder.cpp:159-165 | `\PA\` to `\PI\` without `\PF\` select their page and add no text |
| DirectiveGrammar.FeedIgnored | src/ifcparse/IfcCharacterDecoder.cpp:159-165 | `\N\`, `\F\`, `\PN\` and `\PF\` change neither the text nor the page |
| DirectiveGrammar.FeedPageCharacter | src/ifcparse/IfcCharacterDecoder.cpp:134-136 | `\S\c` adds the character at c + 128 of the page in use, or raises the error |
| DirectiveGrammar.FeedArbitrary | src/ifcparse/IfcCharacterDecoder.cpp:153-182 | `\X\hh` adds the byte its two digits denote |
| DirectiveGrammar.FeedExtended | src/ifcparse/IfcCharacterDecoder.cpp:141-182 | an `\X2\` or `\X4\` block with any number of groups adds one code point per group and returns to rest |
| DirectiveGrammar.ItemIsDecoded | src/ifcparse/IfcCharacterDecoder.cpp:133-194 | every well-formed item takes the decoder from state 0 to state 0, adds exactly its meaning and carries its page on |
| DirectiveGrammar.UndefinedPageCharacter | src/ifcparse/IfcCharacterDecoder.cpp:134-136 | a page character that the page lacks stops the decoder at that very character, whatever follows |
| DirectiveGrammar.GrammarIsDecoded | src/ifcparse/IfcCharacterDecoder.cpp:133-195 | for every list of well-formed items, the decoder yields the item-by-item meaning with the page carried along and stops at the tail, or stops at the first undefined page character |
| LiteralText.HexadecimalDigits | src/ifcparse/IfcCharacterDecoder.cpp:66 | a byte counts as a hexadecimal digit if and only if it is a character of "0123456789ABCDEF" |
| DirectiveTexts.ReadsPlain | src/ifcparse/IfcCharacterDecoder.cpp:137-192 | `''` and `\\` add one character each, and any other byte adds itself as a sign-extended 32-bit unit |
| DirectiveTexts.ReadsPageCharacter | src/ifcparse/IfcCharacterDecoder.cpp:134-136 | `\S\c` adds the entry of the page in use 128 places from `c`, around the end of the table, or raises the error where that is 0 |
| DirectiveTexts.ReadsSelectPage | src/ifcparse/IfcCharacterDecoder.cpp:163-165 | `\P`, the letter number k of "ABCDEFGHI" except F, and `\` select page k |
| DirectiveTexts.ReadsIgnored | src/ifcparse/IfcCharacterDecoder.cpp:161-162 | `\N\`, `\F\`, `\PN\` and `\PF\`, written out, change nothing |
| DirectiveTexts.ReadsArbitrary | src/ifcparse/IfcCharacterDecoder.cpp:168-182 | `\X\` and two characters of "0123456789ABCDEF" add 16 times the position of the first plus that of the second |
| DirectiveTexts.ReadsExtended | src/ifcparse/IfcCharacterDecoder.cpp:168-182 | `\X2\` or `\X4\`, any number of groups of four or eight characters of that literal, and `\X0\` add for each group the number its positions denote in base 16 |
| DirectiveTexts.GroupsKeepOrder | src/ifcparse/IfcCharacterDecoder.cpp:168-171 | of two groups of one width the one first in byte order adds the smaller code point, and only then |
| DirectiveTexts.PairsKeepOrder | src/ifcparse/IfcCharacterDecoder.cpp:168-171 | so it is for the two digits after `\X\` |
| DirectiveTexts.StringIsDecoded | src/ifcparse/IfcCharacterDecoder.cpp:124-130 | reading a string starts with a quote and on page 1 |
| CharacterEncoder.MaxElement | src/ifcparse/IfcCharacterDecoder.cpp:324 | the largest code point, which decides between 4 and 8 digits |
| CharacterEncoder.PrintCharacter | src/ifcparse/IfcCharacterDecoder.cpp:330-343 | one turn appends the block bracket, if one is due, and the character or its numeral |
| CharacterEncoder.NumeralIsGroup | src/ifcparse/IfcCharacterDecoder.cpp:341 | the padded upper-case numeral has exactly 4 or 8 digits and denotes its code point |
| CharacterEncoder.Encode | src/ifcparse/IfcCharacterDecoder.cpp:317-350 | the flag-driven loop prints exactly the spelling of one item per printable character and one block per run of the others |
| CharacterEncoder.PrintSpellsItems | src/ifcparse/IfcCharacterDecoder.cpp:329-346 | the `in_extended` automaton and the list of items spell the same text |
| CharacterEncoder.BlocksAreMaximal | src/ifcparse/IfcCharacterDecoder.cpp:332-343 | no two blocks are adjacent and all have the same width, so each maximal run is one block |
| CharacterEncoder.DecodeEncoded | src/ifcparse/IfcCharacterDecoder.cpp:317-350 | for every string of 32-bit code points and every tail not starting with a quote, decoding the encoding gives the string between quotes and stops at the tail |
| CharacterEncoder.EncodingIsInjective | src/ifcparse/IfcCharacterDecoder.cpp:317-350 | no encoding equals another followed by text not starting with a quote |
| CharacterEncoder.EncodedIsPrintable | src/ifcparse/IfcCharacterDecoder.cpp:331-348 | every byte printed lies in 0x20..0x7E |
| CharacterEncoder.EncodedLength | src/ifcparse/IfcCharacterDecoder.cpp:324-348 | the exact output length from the plain, quote, solidus and other characters and the number of runs of the others, with 8 digits for each of those if some code point is at least 0x10000, else 4; the empty string gives two quotes |
| EncodedForm.ExactlyOneForm | src/ifcparse/IfcCharacterDecoder.cpp:317-350 | between its quotes an encoded string spells the one list of printable characters, doubled quotes and solidi, and blocks that decodes to the string, in which no block holds a printable character, no two blocks are adjacent, and every block is `\X4\` with 8 digits if some code point is at least 0x10000 and `\X2\` with 4 digits otherwise |
| DecoderInvariants.TurnsAgree | src/ifcparse/IfcCharacterDecoder.cpp:252-305 | on every state and character `skip` does what `get` does, apart from undefined page characters |
| DecoderInvariants.StatesAgree | src/ifcparse/IfcCharacterDecoder.cpp:247-308 | after every prefix that `get` reads without an error both have the same `parse_state` and `hex_count` |
| DecoderInvariants.OutcomesAgree | src/ifcparse/IfcCharacterDecoder.cpp:247-308 | on every text both stop, or both reject, at the same place; only at an undefined page character does `skip` go on, and then it gets strictly further |
| DecoderInvariants.SkipStopsWhereGetStops | src/ifcparse/IfcCharacterDecoder.cpp:247-308 | from every offset of every buffer both stop at the same offset and reject together; where `get` stops at an undefined page character, `skip` stops at a greater offset |
| DecoderInvariants.DigitTurn | src/ifcparse/IfcCharacterDecoder.cpp:168-182 | a digit either stays pending with all before it or completes the numeral, and what is pushed is the numeral just read |
| DecoderInvariants.TurnKeepsPending | src/ifcparse/IfcCharacterDecoder.cpp:134-192 | every turn keeps `hex` equal to the numeral of the pending digits |
| DecoderInvariants.AccumulatorIsBounded | src/ifcparse/IfcCharacterDecoder.cpp:168-182 | at every loop head of every run at most 7 digits are pending and `hex` is below 16 to their number |
| DecoderInvariants.FoldedStringIsDecoded | src/ifcparse/IfcParse.cpp:254-264 | an encoded string broken over lines anywhere after its opening quote decodes all the same |
| ReadingEnds.ReadingEndsBehindQuote | src/ifcparse/IfcCharacterDecoder.cpp:183-188 | on every text, reading without an error ends at the end, at a NUL, or right behind a quote that no other quote follows |
| ReadingEnds.RejectsExactly | src/ifcparse/IfcCharacterDecoder.cpp:53-66 | in every state inside a directive, reachable or not, where no page character is due: the characters that are not rejected, by the bits of the state |
| ReadingEnds.RejectedExactly | src/ifcparse/IfcCharacterDecoder.cpp:133-194 | behind any prefix read without an error, a character is rejected if and only if the prefix stops inside a directive, no page character is due and the state does not take the character |
| AcceptedText.TurnMatches | src/ifcparse/IfcCharacterDecoder.cpp:133-194 | in every partly read form and for every character but NUL, the decoder's turn goes on with the form, completes it with its meaning, or leaves the states that well-formed text passes through |
| AcceptedText.OrderlyExactlyInGrammar | src/ifcparse/IfcCharacterDecoder.cpp:133-194 | the converse of the grammar: a text without NUL is read from rest to rest through those states if and only if it spells items of the grammar, extended by two spellings that pass unnoticed: a second S for P as in `\SSA\`, and a P after an ignored letter as in `\NP\` |
| AcceptedText.AcceptedTextIsDecoded | src/ifcparse/IfcCharacterDecoder.cpp:133-195 | such a text before a closing quote decodes to the meaning of its forms and stops at the tail |
| AcceptedText.ReadingIsUnique | src/ifcparse/IfcCharacterDecoder.cpp:133-194 | no text spells forms in two ways |
| AcceptedText.MalformedDirectiveIsAccepted | src/ifcparse/IfcCharacterDecoder.cpp:52-61 | outside those states more is read: `\PPX41` is no text of the extended grammar, leaves the states at its second P, and reads as the letter A |
| TopoGraph.TopoGraph.constructor | src/express_parser/express_parser.h:188-200 | a new graph is empty and its in-degree table agrees with it |
| TopoGraph.TopoGraph.AddNode | src/express_parser/express_parser.cpp:115-120 | the node is there afterwards, nothing else changed, and every in-degree still counts the distinct predecessors |
| TopoGraph.TopoGraph.AddEdge | src/express_parser/express_parser.cpp:122-129 | both nodes and the edge are there afterwards and every in-degree still counts the distinct predecessors, repeated edges included |
| TopoGraph.NodeWaits | src/express_parser/express_parser.cpp:115-120 | a new node has no predecessors and changes nobody's count |
| TopoGraph.EdgeWaits | src/express_parser/express_parser.cpp:125-128 | a new edge raises the count of its target by one, a repeated edge none |
| TopoGraph.EmittedWaits | src/express_parser/express_parser.cpp:147-151 | emitting a node takes one waiting predecessor from each of its successors and from nobody else |
| TopoGraph.TopoGraph.InitialQueue | src/express_parser/express_parser.cpp:134-142 | the queue starts with the nodes without predecessors in ascending order |
| TopoGraph.TopoGraph.Lower | src/express_parser/express_parser.cpp:148-151 | one decrement keeps the table counting, never below 0, and queues the successor exactly when nothing is left to wait for |
| TopoGraph.TopoGraph.Release | src/express_parser/express_parser.cpp:147-152 | the inner loop queues exactly the successors whose predecessors are all emitted, in ascending order |
| TopoGraph.EmitHead | src/express_parser/express_parser.cpp:143-153 | every turn keeps: no node is emitted or queued twice, and emitted or queued are exactly the nodes whose predecessors are all emitted |
| TopoGraph.ResultFits | src/express_parser/express_parser.cpp:143-153 | emitted and queued nodes together never outnumber the graph, so the loop ends |
| TopoGraph.TopoGraph.TopoSort | src/express_parser/express_parser.cpp:131-155 | the first call returns exactly the nodes no cycle reaches, all nodes if and only if there is no cycle, and leaves in the table the number of predecessors not emitted |
| TopoGraph.KahnOrderIsTopological | src/express_parser/express_parser.cpp:131-155 | the order has no duplicates, every node follows all its predecessors, and every node left out waits for one left out |
| TopoGraph.EdgesPointForward | src/express_parser/express_parser.cpp:131-155 | for every edge into the result its source is in the result and strictly earlier |
| TopoGraph.RootsComeFirst | src/express_parser/express_parser.cpp:131-155 | the result starts with all nodes without predecessors, in ascending order |
| TopoGraph.KahnOrderIsComplete | src/express_parser/express_parser.cpp:131-155 | the result holds exactly the nodes no cycle reaches, and everything if and only if the graph is acyclic |
| QueueOrder.KahnOrderIsFirstInFirstOut | src/express_parser/express_parser.cpp:143-153 | first in, first out, of any two nodes of the result: one stands before the other if and only if its last predecessor in the result does, or both have the same last predecessor, or none, and it is smaller |
| QueueOrder.KahnOrderIsTheOnlyOne | src/express_parser/express_parser.cpp:131-155 | the result is the one duplicate-free, topological, exhaustive list in that order |
| Digraph.ListedExactlyWhenFreeOfCycles | src/express_parser/express_parser.cpp:131-155 | in any duplicate-free, topological, exhaustive list, left out means behind a cycle, by a backward walk that must repeat a node |
| Digraph.CompleteExactlyWhenAcyclic | src/express_parser/express_parser.cpp:131-155 | such a list holds every node if and only if the graph has no cycle |
| ExpressSchema.Schema.AddType | src/express_parser/express_defs.c:77-86 | the type is appended under its name with its position, earlier types and all entities stay |
| ExpressSchema.Schema.AddEntity | src/express_parser/express_defs.c:50-98 | the entity is appended under its name with its position, without a supertype and with a subtype list that is not set; earlier entities and all types stay |
| ExpressSchema.Schema.FindTypeByName | src/express_parser/express_defs.c:100-108 | the first type with that name, null exactly when there is none |
| ExpressSchema.Schema.FindEntityByName | src/express_parser/express_defs.c:110-118 | the first entity with that name, null exactly when there is none |
| ExpressSchema.Schema.FindEntityById | src/express_parser/express_defs.c:373-378 | an entity exactly for the ids in use, and then the one that carries that id |
| ExpressPreprocess.Token.Equals | src/express_parser/express_parser.h:119-132 | the two-string loop decides equality of the token's text with a word |
| ExpressPreprocess.Token.HasNext | src/express_parser/express_parser.h:141-149 | true exactly when a token is left |
| ExpressPreprocess.Token.Next | src/express_parser/express_parser.h:151-164 | moves to the next token and leaves the rest to be scanned; invalid exactly when none is left |
| ExpressPreprocess.TokensAreWords | src/express_parser/express_parser.h:151-164 | no token of any text is empty or holds a blank, a newline, a tab, a semicolon or a NUL |
| ExpressPreprocess.ScanningInvertsSpacing | src/express_parser/express_parser.h:141-164 | for words written with any runs of " \n\t;" before, between and behind them, and anything behind a NUL: scanning gives the words back if and only if none is empty or holds one of those four or NUL |
| ExpressPreprocess.IndexIsLastPosition | src/express_parser/express_parser.cpp:96-109 | a name's index entry is the last position at which it was declared |
| ExpressPreprocess.IndexAgreesWithSearch | src/express_parser/express_parser.cpp:60-77 | index and linear search agree on all declared names if and only if no name is declared twice |
| ExpressPreprocess.ExpressParser.DeclareType | src/express_parser/express_parser.cpp:96-99 | the name is appended and indexed under the position it got |
| ExpressPreprocess.ExpressParser.DeclareEntity | src/express_parser/express_parser.cpp:106-109 | the name is appended and indexed under the position it got |
| ExpressPreprocess.ExpressParser.DeclareNext | src/express_parser/express_parser.cpp:86-110 | one turn declares what the tokens it reads say and leaves the rest of the declarations to the rest of the text |
| ExpressPreprocess.ExpressParser.Preprocess | src/express_parser/express_parser.cpp:79-113 | for every text: the declared names are the tokens after TYPE and ENTITY in scan order, both indexes record them, and the pass stops early exactly when a keyword has no name after it |
| ExpressPreprocess.DeclaredText | src/express_parser/express_parser.cpp:79-113 | a text of declarations with any words behind each name, laid out in any way, declares the names of each kind in order, a name that reads like a keyword included; a keyword without a name at the end is what makes it incomplete |
| ExpressPreprocess.OneNameIsIndexed | src/express_parser/express_parser.cpp:89-110 | `TYPE n;` and `ENTITY n;` leave exactly the name n, of that kind, at position 0 |
| EntityLinks.FindAll | src/express_parser/express_defs.c:192-195 | every listed subtype name is looked up, an unknown one giving a null link |
| EntityLinks.AssignLinks | src/express_parser/express_defs.c:183-235 | the first assertion that fails, in the order of the code, or that the loop over the attributes leaves its arrays, and otherwise exactly the links the definition names; nothing fails exactly for at most 50 attributes, at most 50 subtypes and a known supertype |
| EntityLinks.InitEntity | src/express_parser/express_parser.cpp:69-77 | for every definition: what stops it or leaves the arrays, or the entity at the indexed position carries the links and every other entity keeps its own |
| EntityLinks.InitEntities | src/express_parser/express_parser.cpp:69-77 | for any list of definitions, repeated and missing names included: stopped exactly where one of them fails, otherwise the links in the objects are those of all definitions applied in turn, and subtype lists no definition reaches stay unset |
| EntityLinks.LinksExistExactly | src/express_parser/express_parser.cpp:69-77 | behind the declaration pass, no definition fails if and only if each is of a declared name, has at most 50 attributes and 50 subtypes, and names a known supertype or none |
| EntityLinks.LinksAreSetExactly | src/express_parser/express_defs.c:183-195 | then the subtype lists of all entities are set if and only if no name is declared twice and every declared name has a definition |
| EntityLinks.OneDefinitionEach | src/express_parser/express_parser.cpp:69-77 | with one definition for each declared entity under distinct names all are linked if and only if each passes the checks, and the links are then those the definitions describe, all of them set |
| EntityLinks.MirroredClausesAgree | src/express_parser/express_defs.c:183-202 | when names are distinct and SUPERTYPE OF and SUBTYPE OF mirror each other, links up and links down agree |
| LastDefinitions.LastDefinitionCounts | src/express_parser/express_parser.cpp:69-77 | for any definitions that stop nothing: an entity has the subtypes of the last definition of its name and the supertype of the last one with SUBTYPE OF; an entity declared again later, or never defined, keeps neither |
| PgSqlGenerator.SubtypeGraphIs | src/express_parser/express_parser_cli.cpp:158-164 | the edges are exactly the listed subtypes and the nodes exactly the entities that take part in one |
| PgSqlGenerator.AddSubtypes | src/express_parser/express_parser_cli.cpp:160-163 | the inner loop adds one edge per listed subtype, an unresolved one as -1 |
| PgSqlGenerator.BuildGraph | src/express_parser/express_parser_cli.cpp:158-164 | the loops over the schema objects build that graph with a right in-degree table, unless they read a number of subtypes that was never set, which is when not all lists are set |
| PgSqlGenerator.EmitTables | src/express_parser/express_parser_cli.cpp:166-172 | one table per id of the order with its supertype's id, or the first thing that stops the generator |
| PgSqlGenerator.GenerateForSchema | src/express_parser/express_parser_cli.cpp:157-172 | on every schema the generator yields what the links in the objects determine, or reads an unset number of subtypes exactly when one is unset |
| PgSqlGenerator.TablesOfHierarchy | src/express_parser/express_parser_cli.cpp:157-172 | when every listed subtype resolves, each table comes once and inherits from its entity's supertype, for exactly the entities that list or are listed and are not behind a cycle; one that does neither gets no table, whatever its supertype; no null entity is met |
| PgSqlGenerator.AssertionFailsExactly | src/express_parser/express_parser_cli.cpp:165-167 | for any listings, the assertion on the first entity fails if and only if the least entity that lists subtypes and is listed nowhere has a supertype |
| PgSqlGenerator.OutcomeExactly | src/express_parser/express_parser_cli.cpp:157-172 | for any listings, unresolved ones included: no order if and only if all that take part are behind a cycle; else the assertion fails if and only if the least root has a supertype; else an entity that does not exist is met if and only if an unresolved listing is not behind a cycle; else the tables of all that take part and are not |
| PgSqlGenerator.ParentsAreEmittedFirst | src/express_parser/express_parser_cli.cpp:157-172 | when moreover every supertype lists its subtypes, the assertion on the first entity holds and every table follows the one it inherits from |
| PgSqlGenerator.AcyclicHierarchyIsComplete | src/express_parser/express_parser_cli.cpp:157-172 | when every listed subtype resolves and there is no inheritance cycle, exactly the entities in some subtype relation get their table |
| PgSqlGenerator.ParentsFirstExactly | src/express_parser/express_parser_cli.cpp:157-172 | when supertypes need not list their subtypes but every listing is answered: tables follow their parents, and the assertion on the first entity holds, if and only if each entity that lists subtypes, is listed nowhere and has a supertype finds that supertype listed nowhere either, listing subtypes, and declared earlier |
| SchemaPipeline.Generate | src/express_parser/express_parser_cli.cpp:133-175 | from any text and any definitions to tables: stopped exactly where a keyword lacks its name or a definition fails, otherwise what the generator makes of the links that the declared names and the definitions give, unset lists included |
| SchemaPipeline.GenerationIsDefinedExactly | src/express_parser/express_parser_cli.cpp:133-175 | nothing fails and only what was set is read if and only if every keyword has a name, no entity is declared twice, every definition is of a declared entity and within the limits with a known supertype, and every declared entity has a definition |
| SchemaPipeline.MirroredTextIsLinked | src/express_parser/express_parser.cpp:69-77 | a text with one definition per declared entity, within the limits, mirrored and under distinct names, is linked as its definitions say, and the generator reads only what was set |
| SchemaPipeline.MirroredSchemaIsOrdered | src/express_parser/express_parser_cli.cpp:157-172 | for definitions within the limits of 50 attributes and 50 subtypes that mirror each other linking never fails, and every table comes once, inherits from the entity its definition names, and follows it |
| GlobalId.Base64 | src/ifcparse/IfcGlobalId.cpp:37-47 | for v below 64^l both loops end and give the numeral of v with exactly l digits |
| GlobalId.FromBase64 | src/ifcparse/IfcGlobalId.cpp:50-61 | skipping leading zeros changes nothing: the 32-bit accumulation over all digits, or the error at the first foreign character |
| GlobalId.NumeralDenotes | src/ifcparse/IfcGlobalId.cpp:37-47 | the numeral of every v below 64^l denotes v |
| GlobalId.NumeralOfValue | src/ifcparse/IfcGlobalId.cpp:37-61 | every string over the alphabet is the numeral of the number it denotes |
| GlobalId.FromBase64Inverts | src/ifcparse/IfcGlobalId.cpp:50-61 | on up to four digits the 32-bit accumulation is exact |
| GlobalId.NumeralIsReadBack | src/ifcparse/IfcGlobalId.cpp:37-61 | `from_base64` inverts `base64` on every length the GlobalId uses |
| GlobalId.Compress | src/ifcparse/IfcGlobalId.cpp:64-72 | every call of `base64` meets its bound and the 22 characters are those of the byte groups in order |
| GlobalId.CompressedDenotesBytes | src/ifcparse/IfcGlobalId.cpp:64-72 | the 22 characters read as base-64 digits denote the 128-bit big-endian integer of the bytes |
| GlobalIdDigits.CompressedFromTable | src/ifcparse/IfcGlobalId.cpp:34-47 | character i is the one of the 64-character table, written out, at the digit of the big-endian integer of the bytes that counts 64 to the power 21 - i |
| GlobalId.AppendThree | src/ifcparse/IfcGlobalId.cpp:79-81 | the inner loop appends the three low bytes, most significant first |
| GlobalId.Expand | src/ifcparse/IfcGlobalId.cpp:75-83 | for every string: the 16 bytes of its groups, or which of the two exceptions ends it |
| GlobalId.ExpandsExactly | src/ifcparse/IfcGlobalId.cpp:50-83 | on any string: the decoding error if and only if one of its first 22 characters is foreign to the alphabet, otherwise the range error if and only if it has fewer than 18 characters, otherwise 16 bytes |
| GlobalIdDigits.ExpandedFromTable | src/ifcparse/IfcGlobalId.cpp:50-83 | 18 or more characters of that table expand to the bytes their positions denote: the first two one byte, cut to eight bits, every further four, or what is left of them, three bytes |
| GlobalIdDigits.ForeignExactly | src/ifcparse/IfcGlobalId.cpp:56-57 | what cannot be decoded is what is not in that table, the terminator excepted |
| GlobalId.ExpandCompressed | src/ifcparse/IfcGlobalId.cpp:99-107 | expanding what was compressed gives the bytes back, for all 16 bytes |
| GlobalId.CompressedIsCanonical | src/ifcparse/IfcGlobalId.cpp:64-72 | every compressed id has 22 digits of the alphabet, the first at most 3 |
| GlobalId.CompressExpanded | src/ifcparse/IfcGlobalId.cpp:122-127 | compressing what was expanded gives the string back if and only if it has 22 digits of the alphabet, the first at most 3 |
| GlobalId.CompressedIsInjective | src/ifcparse/IfcGlobalId.cpp:64-72 | different bytes never share an id |
| StringTools.MergeString | src/common/string.cpp:115-137 | the pieces joined by the delimiter; a count of 0 or beyond the end means all of them |
| StringTools.SplitString | src/common/string.cpp:83-97 | appends the maximal non-empty pieces without delimiter characters, in order |
| StringTools.SplitStringToSet | src/common/string.cpp:67-81 | adds the same pieces to the set and removes nothing |
| StringTools.PiecesAreClean | src/common/string.cpp:83-97 | no piece is empty or holds a delimiter character |
| StringTools.SplitInvertsMerge | src/common/string.cpp:83-137 | splitting a merged list gives the list back if and only if its strings are non-empty and free of delimiter characters |
| StringTools.CloseCell | src/common/string.cpp:104-107 | a delimiter becomes the terminator of the cell before it, which is kept if it is non-empty or empty ones are wanted |
| StringTools.SplitInPlace | src/common/string.cpp:99-113 | the offsets hold, as C strings in the changed buffer, exactly the wanted pieces, and nothing behind the text is touched |
| StringTools.KeptArePieces | src/common/string.cpp:99-113 | without empty pieces the buffer version gives the pieces of the vector version |
| StringTools.JoinOfCells | src/common/string.cpp:99-113 | with empty pieces, joining them by the delimiter gives the text back |
| StringTools.CutIsTheLeftmostSplit | src/common/string.cpp:158-164 | the cut `replace` makes is the one and only split at leftmost occurrences that do not overlap |
| StringTools.ReplacedBySame | src/common/string.cpp:141-143 | the first early return: replacing a string by itself changes nothing |
| StringTools.ReplaceLoop | src/common/string.cpp:153-164 | the loop ends with the pieces of that cut joined by the new string |
| StringTools.Replace | src/common/string.cpp:139-169 | all three early returns agree with cutting and joining |
| Subreplacing.Subreplace | src/common/vulcan_utility.cpp:52-60 | on every call that returns: what the turns of the loop yield, without an occurrence left, and the result of `replace` when the arguments are safe |
| Subreplacing.YieldsOnce | src/common/vulcan_utility.cpp:54-59 | the loop yields at most one result |
| Subreplacing.ReplaceFirst | src/common/vulcan_utility.cpp:56-58 | with safe arguments a turn replaces the occurrence `replace` takes next, and no later search finds anything in what is done |
| Subreplacing.NothingLeftExactlyWhenSafe | src/common/string.cpp:139-169 | `replace` leaves no occurrence in any text if and only if the arguments are safe: the new string does not contain the old one, ends in no proper front of it, and cannot complete one together with the text before a leftmost occurrence |
| Subreplacing.HelpersAgreeExactlyWhenSafe | src/common/vulcan_utility.cpp:52-60 | `subreplace` returns the result of `replace` on every text if and only if the arguments are safe |
| Subreplacing.RestartingCascades | src/common/vulcan_utility.cpp:56-58 | removing "ab" from "aabb": `replace` gives "ab", `subreplace` the empty string |
| Subreplacing.NeverEnds | src/common/vulcan_utility.cpp:56-58 | when the new string contains the old one, the loop never ends once it starts |
| Subreplacing.EndsExactlyUnlessSame | src/common/vulcan_utility.cpp:56-58 | for a new string no longer than the old one the loop ends unless the two are the same and occur |
| Subreplacing.EndsExactlyForOneCharacter | src/common/vulcan_utility.cpp:56-58 | for a single old character the loop ends unless that character occurs in both the text and the new string |
| Stripping.Strip | src/common/string.cpp:35-48 | both loops together remove exactly the white space at both ends |
| Stripping.StripBuffer | src/common/string.cpp:20-33 | the returned offset holds, as a C string, the text without white space at both ends, blank and empty text included |
| Stripping.TrimOfPadded | src/common/string.cpp:20-48 | of white space, a text that starts and ends with none, and white space, stripping leaves the text, where white space is " \t\n\v\f\r" |
| IniFile.IniFile.InsertSession | src/common/ini_parser.cpp:22-29 | the section exists afterwards and an existing one keeps its entries |
| IniFile.IniFile.SwitchSession | src/common/ini_parser.cpp:31-47 | the named section is in use and exists, all others as before |
| IniFile.IniFile.Get | src/common/ini_parser.cpp:49-70 | the stored value, or the default when the section or the key is missing |
| IniFile.IniFile.Put | src/common/ini_parser.cpp:72-79 | the section exists and holds the key; a value that was there stays |
| IniFile.IniFile.InsertEntry | src/common/ini_parser.cpp:81-104 | a line splits at its first equals sign into a trimmed key and value, the first value of a key stays, and a line without one changes nothing |
| IniFile.GetLine | src/common/ini_parser.cpp:121-123 | the cleared buffer of 1024 characters receives the line up to the newline, the end of the file or 1023 characters, terminated by NUL |
| IniFile.ReadBuffer | src/common/ini_parser.cpp:125 | stripping the buffer in place and reading the C string from where `strip` says gives the line without white space at both ends |
| IniFile.IniFile.LoadLine | src/common/ini_parser.cpp:127-164 | one stripped line moves sections, section in use, continuation flag and pending text as the line state machine says |
| IniFile.IniFile.Load | src/common/ini_parser.cpp:106-180 | for every text the store is that of the state machine run over its lines, up to the first overlong one |
| IniFile.IniFile.PrintEntries | src/common/ini_parser.cpp:196-203 | one line per entry in key order |
| IniFile.IniFile.PrintSection | src/common/ini_parser.cpp:189-204 | the header, the entries and an empty line |
| IniFile.IniFile.ToString | src/common/ini_parser.cpp:182-210 | the banners around all sections in name order |
| StringOrder.LessExactly | src/common/ini_parser.cpp:187-196 | the key order of the maps decides at the first difference, a prefix first |
| IniText.DumpGrows | src/common/ini_parser.cpp:182-210 | an empty store prints the two banners, and a section behind all others adds "[name]", its entries and an empty line before the closing one, all written out |
| IniText.EntriesGrow | src/common/ini_parser.cpp:196-203 | an empty section prints no entry, and a key behind all others adds the line "key=value" at the end |
| IniRoundTrip.LoadUnlines | src/common/ini_parser.cpp:120-165 | loading a text of whole lines is processing the lines in order |
| IniRoundTrip.LoadEntryLine | src/common/ini_parser.cpp:147-164 | the printed line of a well-formed entry adds that entry and nothing else |
| IniRoundTrip.LoadHeaderLine | src/common/ini_parser.cpp:137-145 | a printed header enters its section |
| IniText.CommentIsIgnored | src/common/ini_parser.cpp:127-135 | a blank line and a line starting with "#", white space around it or not, change nothing in any state |
| IniText.HeaderIsEntered | src/common/ini_parser.cpp:137-145 | "[name]", white space around it or not, enters its section, new and empty unless it is there |
| IniText.EntryIsAdded | src/common/ini_parser.cpp:81-164 | key, "=" and value with any white space around each of them add that entry to the section in use unless it has the key |
| IniRoundTrip.BannersAddNothing | src/common/ini_parser.cpp:185-207 | neither banner line changes anything |
| IniRoundTrip.PrintThenLoadMerges | src/common/ini_parser.cpp:106-210 | loading a printed well-formed store into any store adds what is new and keeps every value that was there |
| IniRoundTrip.PrintThenLoad | src/common/ini_parser.cpp:106-210 | a well-formed store survives printing and loading into an empty one |
| IniExactness.EntrySurvivesExactly | src/common/ini_parser.cpp:120-203 | for every key and value, overlong and many-lined ones included: the printed text of the entry adds exactly that entry in every state outside a continuation if and only if the entry is well-formed |
| IniExactness.LoadedStoreIsClean | src/common/ini_parser.cpp:106-180 | whatever text is loaded into a clean store, every key and value stays trimmed, on one line, without comment sign, equals sign in the key or trailing backslash, and every section name fits a line |
| IniExactness.PrintThenLoadExactly | src/common/ini_parser.cpp:106-210 | printing and loading into an empty store gives the store back if and only if it is well-formed, over all stores |
| IniExactness.LoadingIsDefinedExactly | src/common/ini_parser.cpp:81-165 | in every state, loading a text hands `strip` a blank side if and only if one of the text's completed logical lines has an equals sign with nothing but white space on one side |
| IniRoundTrip.JoinTwo | src/common/ini_parser.cpp:147-164 | a continued line and the next one act as the line that joins them, in every state |
| IniRoundTrip.JoinAll | src/common/ini_parser.cpp:147-164 | so do any number of continued lines and a last one |
| IniRoundTrip.ContinuationIsTransparent | src/common/ini_parser.cpp:120-165 | splitting an entry over continued lines loads the same store as the joined line, in any state, behind any whole lines and before anything |

## Left out

- The server, client, sessions, logging, signals and process state: sockets, events and files.
- SEDA stages, the lock trace, `IfcFile` and the generated definitions: their algorithms are not part of this model.
- UTF-8 conversion on both sides of the codec and the modes ESCAPE and SUBSTITUTE: the model ends at the code points.
- The contents of the ISO 8859 tables: any tables, with 0 for "not defined".
- Reading behind the end of the stream's buffer: the model has a NUL there.
- The yacc grammar of EXPRESS: the entity definitions it hands over are a parameter.
- `init_type`, `assign_type_args` and what the attribute loop of `assign_entity_args` stores: up to 50 attributes they decide SQL column types only, and they overwrite the list flag of shared types. From 51 on the loop writes behind its arrays, over links set before; the assertion in front of it compares with 1000. That is the outcome `AttributesOverflow`, and what memory then holds is not modelled.
- The text of the SQL statements, enumerations and lower-casing: a statement is the entity and the one it inherits from.
- SchemaPipeline.Generate: at most 500 types and 1000 entities; beyond that the program fails an assertion or writes outside its arrays.
- TopoGraph.TopoGraph.TopoSort: the first call on a built graph; a second call starts from the in-degrees the first one left.
- Subreplacing.Subreplace: asks that the loop end on its text; that is decided for safe arguments, for a new string that contains the old one, for one no longer than it and for single characters, and left open for a longer new string that is none of these, where it is the termination of a one-rule rewriting system.
- StringTools.SplitString: offsets are unbounded, the narrowing of `cut_at` to `int` beyond 2^31 characters is not modelled.
- Stripping.Strip: a string with a visible character; on a blank one the program indexes outside the string.
- IniFile.IniFile.Load: takes the file's text; a file that cannot be opened is not modelled, and after undefined behaviour the store is left open.
- GlobalId: the random UUID and its formatted form.
- `serialize_type_tree`, hexadecimal dumps, case conversion, the class factory and the interactive command line: easy members or output only.
