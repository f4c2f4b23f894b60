# Verified models of the upgrade scripts

The project models five parts of the upgrade tool's modules and proves what each of them is for.

- **The Tomcat XML pipeline.** Configuration files are parsed into element trees that keep their comments, changed in
  place, and written again. The model covers the tree builder and the comment-keeping parser front end, as objects;
  the prefix registry and the table of printed names; the XML and text serializers with their escapes; the migration
  passes; and the incremental iterator. The parser library that feeds the front end is no part of the repository, so
  a reader of XML 1.0 and of Namespaces in XML 1.0 stands in for it (`Lexer`, `Reader`). It is written from the
  standards and not from the writer, and it refuses what is not well formed, but for the two
  cases named under "Left out".
- **The dnsmasq include loader**, which walks over the list of configuration files that it is extending.
- **The grub script**, a loop with two flags that adds missing initrd lines.
- **The parser and the printer of epoch, version and release.**
- **The pass over Tomcat's user roles**, which turns out to change no user.

## How the parts fit together

`Builder` is the tree builder as a machine on values: elements live in a store and are named by the order of their
creation, so identity, sharing and update in place stay visible. `TreeBuilders` and `NoisyTree` hold the classes, with
the fields of the source; every method is proved to move exactly as the machine does. `Passes` does the same for the
loops that change attributes and texts in place: they refine the function `Migration.Rewrite` on trees.

On the writing side `Serializer.SerializeIsRender` turns the recursive serializer into tokens, `Lexer.LexRender` shows
that a reader takes the characters apart into the same tokens, `Scoping.PrintedResolves` that every printed name
resolves to the original one, and `RoundTrip` puts these together. `FrontEnd` turns the events that are read into
calls of the builder, and `WholeTrip.WriteThenParse` closes the circle: write, read, build. `Documents` starts at the
other end, with any text that can be read: it spells some comments, one element and some more comments
(`Documents.DocumentReads`), and `Documents.FileSurvives` follows it through parsing, migrating, writing and reading.

The order in which a dictionary yields its keys is unknown, so the order in which names are met is a parameter
(`Writer.Visits` says that it is some order of the right names) and every result holds for all of them. An encoding is
either utf-8 or us-ascii. Output is a sequence of characters.

## What the code does that its text does not say

- `RHEL6_7/services/tomcat/post-tomcat.py:97` and `:104` drop the list that `replace_role` makes, so the roles of a user
  are written back unchanged although a change is announced (`Users.MigrateRoles`, `Users.AnnouncedIff`,
  `Users.AdminIsAnnounced`).
- `RHEL6_7/services/tomcat/post-tomcat.py:192-193` announces `genStringAsCharArray`; the code writes
  `getStringAsCharArray` (line 189). At line 195 the flag is set whether or not a text was changed;
  `Passes.CheckJspCompiler` says exactly when flag and change agree, `Passes.FlagWithoutChange` has a tree for which
  they do not. The flags of the other passes do mean that the tree has changed.
- `NoisyElementTree` keeps "comments prior to the root", but close returns the element that was closed last. With a
  comment after the document element that comment becomes the root, and the document element is filed among the
  comments (`Parsing.ParseTrailing`, `Parsing.ParseReturnsRoot`).
- `RHEL6_7/services/tomcat/xml/ElementTree.py:1281`: an error from closing the parser is not held back. It is raised
  before the events that closing has produced are delivered, and again at every further call. So errors come after
  the events before them exactly if closing does not fail or produces no event (`IterParse.NeverEarlyIff`,
  `IterParse.Overtaken`), and are raised once exactly if closing does not fail (`IterParse.RaisedOnceIff`).
- `register_namespace` refuses only `ns<digits>`. It accepts prefixes that cannot be declared
  (`Namespaces.EmptyPrefixAccepted`) and can take `xml` away from its namespace;
  `Namespaces.RegisteredKeepsDeclarable` has the exact condition.
- `RHEL6_7/services/tomcat/xml/NoisyElementTree.py:136-144`: without an encoding argument no XML declaration is written,
  even if one is asked for. The output is then us-ascii, which needs none, and the round trip covers that case.
- `RHEL6_7/networking/dnsmasq/check:260-262` joins the directory on twice, so the files of a relative conf-dir are looked
  for in the wrong place (`Dnsmasq.JoinedTwice`, `Dnsmasq.RelativeJoinedTwice`).
- The grub script misses the second of two neighbouring kernel lines (`Grub.NeighbourMissed`); `Grub.CompleteIff` says
  exactly when it completes a file.
- The grub script copies lines with `echo "$line"`, and echo takes a line such as `-n` or `-e` for options: the line is
  lost or blanked. `Grub.ErasureIff` says exactly which files get through (`Grub.OptionsAreLost`).
- An initrd line that the script adds does not always name the image of its kernel. Without an argument after the image
  it repeats the whole kernel line (`Grub.BareKernelNamed`), and with two blanks before the image it names nothing
  (`Grub.DoubleBlankNamed`). `Grub.AddedLinesNameImage` has the exact condition.
- `RHEL6_7/services/tomcat/post-tomcat.py:321-324`: no web.xml gets a pass, although servlets are declared there. The
  files are parsed and written again (`PostUpgrade.WebXmlGetsNoPass`). Besides, lines 37-38 collect directories only, so
  the lists of application files are empty unless a directory has such a name.

## Model

| member | source | states |
|---|---|---|
| TreeBuilders.TreeBuilder.FlushData | RHEL6_7/services/tomcat/xml/ElementTree.py:1388-1398 | the pending chunks, joined, fill the text or the tail of the last element; an already filled slot raises the internal error and keeps the chunks |
| TreeBuilders.TreeBuilder.StartElement | RHEL6_7/services/tomcat/xml/ElementTree.py:1417-1424 | flushes, creates the element as last child of the innermost open one and opens it; the objects keep standing for the builder machine's store |
| TreeBuilders.TreeBuilder.EndElement | RHEL6_7/services/tomcat/xml/ElementTree.py:1433-1440 | flushes, pops the innermost element and returns it; an empty stack and a tag that differs are errors, the latter after the pop |
| TreeBuilders.TreeBuilder.Close | RHEL6_7/services/tomcat/xml/ElementTree.py:1383-1386 | missing end tags and a missing top-level element are told apart; otherwise the element closed last is returned |
| Builder.StepKeepsInv | RHEL6_7/services/tomcat/xml/ElementTree.py:1388-1440 | one call in any state satisfying the invariant keeps it, or raises one of the two caller errors; the assertions in `_flush` are out of reach |
| Builder.RunKeepsInv | RHEL6_7/services/tomcat/xml/ElementTree.py:1367-1440 | over every run of calls from such a state: `_last` and `_tail` always name the one slot not filled yet, and neither internal-error assertion can fire |
| Builder.RunMatches | RHEL6_7/services/tomcat/xml/ElementTree.py:1388-1440 | over every run, forests, top-level text and stray end tags included: it raises nothing if and only if every end tag closes the innermost open element; otherwise it raises the first fault, and the tags left open are those of bracket matching |
| Builder.BuildNode | RHEL6_7/services/tomcat/xml/ElementTree.py:1388-1440 | from any state satisfying the invariant, the calls of any tree raise nothing and build exactly that tree, in the next free slots, in document order, attached to the open element and leaving the rest as it was |
| Builder.NodeCloses | RHEL6_7/services/tomcat/xml/ElementTree.py:1433-1440 | the end calls of any tree return each element created for it exactly once |
| Chunks.CutsDoNotMatter | RHEL6_7/services/tomcat/xml/ElementTree.py:1388-1408 | two call sequences that agree once neighbouring data calls are joined raise the same error, close the same elements and leave the same flushed store |
| NoisyTree.IterElements | RHEL6_7/services/tomcat/xml/ElementTree.py:471-478 | the recursive iterator visits the elements in document order, each with everything below it |
| NoisyTree.CommentTreeBuilder.FixNameMemo | RHEL6_7/services/tomcat/xml/ElementTree.py:1515-1524 | the memo never changes an answer: a name gets its brace back exactly if it has a namespace |
| NoisyTree.CommentTreeBuilder.FillAttribs | RHEL6_7/services/tomcat/xml/ElementTree.py:1535-1543 | the flat list of attributes becomes the dictionary of fixed names |
| NoisyTree.CommentTreeBuilder.HandleComment | RHEL6_7/services/tomcat/xml/NoisyElementTree.py:71-74 | a comment is a closed element with one text, and is collected; an error of the builder stops it in between |
| NoisyTree.CommentTreeBuilder.CloseElement | RHEL6_7/services/tomcat/xml/NoisyElementTree.py:76-79 | a closed element is returned and collected |
| NoisyTree.CommentTreeBuilder.Feed | RHEL6_7/services/tomcat/xml/NoisyElementTree.py:62-79 | over all events, up to the first error: builder and collection are exactly those of the run of calls |
| NoisyTree.NoisyElementTree.Outside | RHEL6_7/services/tomcat/xml/NoisyElementTree.py:116-117 | the comprehension keeps, in order, exactly the collected elements that the root does not reach; elements are compared by identity |
| NoisyTree.NoisyElementTree.ParseEvents | RHEL6_7/services/tomcat/xml/NoisyElementTree.py:112-118 | parse sets the root and the comments before it as the specification `Parsing.Parse` says, with the same errors |
| Parsing.ParseFailsIff | RHEL6_7/services/tomcat/xml/ElementTree.py:1383-1440 | for every run of calls, which error parse fails with, and that it succeeds exactly for a complete nested run with an element |
| Parsing.ParseDocument | RHEL6_7/services/tomcat/xml/NoisyElementTree.py:112-118 | for comments followed by any document element, parse returns that element and sets aside exactly those comments in document order |
| Parsing.CommentsConserved | RHEL6_7/services/tomcat/xml/NoisyElementTree.py:71-79 | the collected elements are, as a multiset, the comments set aside and the elements the root reaches; none is lost or repeated |
| Parsing.ParseTrailing | RHEL6_7/services/tomcat/xml/ElementTree.py:1383-1440 | with comments after the document element, parse returns the last of them as the root and sets aside everything else, the document element included |
| Parsing.ParseReturnsRoot | RHEL6_7/services/tomcat/xml/ElementTree.py:1383-1440 | parse returns the document element if and only if no comment follows it |
| Parsing.ParseIgnoresCuts | RHEL6_7/services/tomcat/xml/NoisyElementTree.py:112-118 | for any two runs of calls that agree once neighbouring data calls are joined, parse gives the same result or the same error |
| FrontEnd.TreeCalls | RHEL6_7/services/tomcat/xml/ElementTree.py:1526-1549 | the events of a written tree, passed through the handlers, are the builder calls of the tree itself, empty text dropped |
| FrontEnd.DeliveredFill | RHEL6_7/services/tomcat/xml/ElementTree.py:1535-1543 | filling a dictionary from the delivered attributes gives back the dictionary they were written from |
| Namespaces.Registry.constructor | RHEL6_7/services/tomcat/xml/ElementTree.py:1037-1048 | the registry starts with the well-known prefixes |
| Namespaces.Registry.RegisterNamespace | RHEL6_7/services/tomcat/xml/ElementTree.py:1029-1035 | reserved prefixes are refused and change nothing; otherwise entries with the same URI or prefix go and the new one is entered |
| Namespaces.RegisteredKeepsOthers | RHEL6_7/services/tomcat/xml/ElementTree.py:1032-1035 | the new entry is there, entries with its URI or its prefix are gone, and every other entry stays as it is |
| Namespaces.ReservedIff | RHEL6_7/services/tomcat/xml/ElementTree.py:1030-1031 | the prefixes that are refused are exactly ns and one or more digits, with or without a newline after them |
| Namespaces.WellKnownPrefixes | RHEL6_7/services/tomcat/xml/ElementTree.py:1037-1048 | the seven URIs and prefixes of the initial table |
| Namespaces.WellKnownIsFine | RHEL6_7/services/tomcat/xml/ElementTree.py:1037-1048 | the initial table is injective, holds no generated prefix, and can be declared |
| Namespaces.RegisteredKeepsInv | RHEL6_7/services/tomcat/xml/ElementTree.py:1029-1035 | every accepted call keeps the table injective and free of `ns<digits>` |
| Namespaces.RegistryRuns | RHEL6_7/services/tomcat/xml/ElementTree.py:1029-1048 | the same over every sequence of calls, and the table stays declarable if each accepted call meets the condition below |
| Namespaces.RegisteredKeepsDeclarable | RHEL6_7/services/tomcat/xml/ElementTree.py:1029-1035 | exactly when a call leaves a table whose prefixes can be declared: an NCName other than `xmlns`, and `xml` for its own namespace only |
| Namespaces.EmptyPrefixAccepted | RHEL6_7/services/tomcat/xml/ElementTree.py:1029-1035 | a call with the empty prefix is accepted on the initial table, and leaves one that cannot be declared |
| Namespaces.SplitNameIff | RHEL6_7/services/tomcat/xml/ElementTree.py:848-849 | a qualified name splits into a URI and a local part exactly if it is made from them and the local part has no brace |
| Namespaces.RecordUri | RHEL6_7/services/tomcat/xml/ElementTree.py:850-856 | entering a URI keeps URIs and prefixes one to one: a generated number grows with the table and a registered prefix is never of that form |
| Namespaces.AddNamesKeepsOk | RHEL6_7/services/tomcat/xml/ElementTree.py:831-897 | for every list of names the table prints each of them as a declared prefix and its local part, and holds exactly the names of the list |
| Namespaces.AddNamesSucceeds | RHEL6_7/services/tomcat/xml/ElementTree.py:845-870 | whatever is registered, building the table fails exactly when some new name has no closing brace, or its local part or its registered prefix cannot be encoded; otherwise the table holds exactly the names of the list |
| Namespaces.FirstPrefixes | RHEL6_7/services/tomcat/xml/ElementTree.py:849-858 | two namespaces that are not registered get ns0 and ns1, in the order in which they are met |
| Namespaces.PrintedNamesDiffer | RHEL6_7/services/tomcat/xml/ElementTree.py:831-897 | distinct names never print alike, so no element prints the same attribute twice |
| Writer.CollectNames | RHEL6_7/services/tomcat/xml/ElementTree.py:872-897 | the pass over iter ends with the table for some order of the tags and attribute keys of every element |
| Writer.LookupsSucceed | RHEL6_7/services/tomcat/xml/ElementTree.py:899-944 | whatever is registered, every tag and attribute key that the recursive serializer looks up is in the table built by the pass over iter |
| Serializer.SerializeIsRender | RHEL6_7/services/tomcat/xml/ElementTree.py:899-944 | the XML serializer succeeds exactly when every lookup does and every comment has a text, and then writes the characters of the tree's tokens |
| Serializer.ConnectorWritten | RHEL6_7/services/tomcat/xml/ElementTree.py:914-942 | the characters of a connector with two attributes: port before protocol, and a blank before the closing slash |
| Serializer.RootWritten | RHEL6_7/services/tomcat/xml/ElementTree.py:899-944 | the characters of an element with a namespace to declare, a text, a comment and the comment's tail |
| Serializer.SerializersAgree | RHEL6_7/services/tomcat/xml/ElementTree.py:498-508 | for every tree, the character data among the tokens of the XML form is what the text serializer writes |
| RoundTrip.MarkupRemovedIsText | RHEL6_7/services/tomcat/xml/ElementTree.py:1004-1008 | on the characters, for every encoding, declaration and prologue and for a root with a tail: the text method succeeds exactly if the encoding holds the text, and taking tags and comments out of what the XML method wrote and decoding the rest gives that text, apart from the line ends between the prologue's parts |
| Escaping.EscapeIsOnePass | RHEL6_7/services/tomcat/xml/ElementTree.py:1061-1092 | the guarded replacements in their order are one pass that maps each character by itself |
| Escaping.CdataReadBack | RHEL6_7/services/tomcat/xml/ElementTree.py:1061-1073 | escaped text reads back as itself if and only if it has only characters XML allows and no carriage return; otherwise what it reads as |
| Escaping.AttribReadBack | RHEL6_7/services/tomcat/xml/ElementTree.py:1077-1090 | the same for attribute values, where tabs are lost too and line feeds survive |
| Escaping.EscapeIsClean | RHEL6_7/services/tomcat/xml/ElementTree.py:1061-1092 | no raw `<` or `>`, in attributes no raw quote or line feed, and nothing the encoding cannot hold |
| Escaping.SpecialsWritten | RHEL6_7/services/tomcat/xml/ElementTree.py:1061-1092 | the literal replacement of each special character, in text and in attribute values |
| Escaping.NumberWritten | RHEL6_7/services/tomcat/xml/ElementTree.py:1073-1090 | a character that us-ascii lacks is written as its decimal reference, and in utf-8 as itself |
| Escaping.LineEndsAreLost | RHEL6_7/services/tomcat/xml/ElementTree.py:1061-1092 | a carriage return in a text reads back as a line feed, a tab in an attribute as a space |
| Sorting.Sorted | RHEL6_7/services/tomcat/xml/ElementTree.py:926 | sorted lists each item of a set once, in the order of the pairs |
| Sorting.StringLeqIff | RHEL6_7/services/tomcat/xml/ElementTree.py:926 | the order on strings is lexical: a prefix comes first, and otherwise the smaller character at the first difference |
| Sorting.PairLeqIff | RHEL6_7/services/tomcat/xml/ElementTree.py:926 | the order on pairs is lexical: the first strings decide unless they are equal |
| Lexer.LexRender | RHEL6_7/services/tomcat/xml/ElementTree.py:899-944 | a reader takes the rendered tokens apart into the same tokens, for every legal token sequence |
| RoundTrip.CommentReadsBackIff | RHEL6_7/services/tomcat/xml/ElementTree.py:902-903 | a written comment reads back as itself if and only if XML allows it, the encoding holds it and it has no carriage return |
| Scoping.RootScope | RHEL6_7/services/tomcat/xml/ElementTree.py:917-925 | the declarations printed on the root bind every URI of the table to its prefix |
| Scoping.PrintedResolves | RHEL6_7/services/tomcat/xml/ElementTree.py:845-870 | resolving a printed tag or attribute name against those declarations gives the original universal name |
| RoundTrip.ReadTree | RHEL6_7/services/tomcat/xml/ElementTree.py:899-944 | every element inside the root reads back as the events of its tree, in any position where the declarations are in scope |
| RoundTrip.WriteReadsBack | RHEL6_7/services/tomcat/xml/NoisyElementTree.py:120-158 | for every legal document, registry, visit order and encoding, writing succeeds and the characters read as the comments and the events of the tree; a reader that relies on the encoding named in the declaration accepts them |
| RoundTrip.WriteDeclares | RHEL6_7/services/tomcat/xml/NoisyElementTree.py:136-144 | every file that is written starts with the literal declaration for utf-8 or us-ascii if it was asked for with that encoding, and with none otherwise; the rest does not depend on it |
| RoundTrip.WrittenIsHeld | RHEL6_7/services/tomcat/xml/NoisyElementTree.py:120-158 | every character that is written is in the encoding asked for, which is us-ascii without an encoding argument |
| RoundTrip.WrittenNamesEncoding | RHEL6_7/services/tomcat/xml/NoisyElementTree.py:136-144 | a reader finds exactly that encoding named in a legal document, or none |
| Writer.CommentWritten | RHEL6_7/services/tomcat/xml/NoisyElementTree.py:146-147 | a comment set aside is written on a line of its own |
| WholeTrip.WriteThenParse | RHEL6_7/services/tomcat/xml/NoisyElementTree.py:112-158 | the full round trip: writing, reading and building gives back the same tree, up to empty text, and the same comments in the same order |
| Documents.DocumentReads | RHEL6_7/services/tomcat/xml/NoisyElementTree.py:71-79 | the events of every text that can be read make the calls that spell some comments, one element without a tail and some more comments, all with names, texts and attributes as a reader delivers them |
| Documents.ParsedIsLegalIff | RHEL6_7/services/tomcat/xml/NoisyElementTree.py:112-118 | every text that can be read parses; if parse returns the document element, the tree meets the conditions of the round trip exactly if nothing in it has a carriage return, nor a tab in a name or an attribute, and the comments set aside always do |
| Documents.FileSurvives | RHEL6_7/services/tomcat/post-tomcat.py:305-343 | the script's own trip from text to text: such a file, parsed, migrated by any passes, written in utf-8 and parsed again, is the migrated tree with the same comments |
| Passes.CheckSessionManager | RHEL6_7/services/tomcat/post-tomcat.py:115-144 | the loop over managers, in place: afterwards the tree is the old one rewritten by this pass; the flag says whether some manager had one of the three attributes, and equally whether the tree has changed |
| Passes.CheckSessionCookieConnector | RHEL6_7/services/tomcat/post-tomcat.py:146-163 | the same for emptySessionPath of connectors |
| Passes.CheckUrlRewriting | RHEL6_7/services/tomcat/post-tomcat.py:165-179 | the same for disableURLRewriting of contexts |
| Passes.CheckJspCompiler | RHEL6_7/services/tomcat/post-tomcat.py:181-196 | the nested loops rewrite exactly the texts below servlets; the flag says that some param-name stands below a servlet, the tree has changed exactly if one of them had the old text, and flag and change agree exactly if there is no such element or one had the old text |
| Passes.FlagWithoutChange | RHEL6_7/services/tomcat/post-tomcat.py:188-196 | a servlet with a param-name without text: the flag is set and nothing changes |
| Passes.MigrateFile | RHEL6_7/services/tomcat/post-tomcat.py:317-324 | the passes over one file's tree, in place, one after the other, rewrite it as `Migration.RunPasses` says |
| PostUpgrade.MigrateFiles | RHEL6_7/services/tomcat/post-tomcat.py:317-324 | the loop over the files: each tree ends rewritten by exactly the passes that its name gets, however often it is listed, and missing files stay missing; so no connector of server.xml keeps emptySessionPath, connectors of all other files stay, and files outside the lists do not change |
| PostUpgrade.WhoGetsWhat | RHEL6_7/services/tomcat/post-tomcat.py:20-25 | in literal paths: server.xml gets all four passes, context.xml and the context files of applications all but the one over connectors, and every other file none |
| PostUpgrade.WebXmlGetsNoPass | RHEL6_7/services/tomcat/post-tomcat.py:277-278 | the web.xml of every application, the global one and the file of users get none of these passes |
| Passes.ParsedIsTree | RHEL6_7/services/tomcat/post-tomcat.py:305-311 | whatever parse succeeds on, what it yields is a tree: no element is reached twice, so the passes apply to it |
| Migration.PassesCompose | RHEL6_7/services/tomcat/post-tomcat.py:115-196 | passes applied after other passes are all of them applied at once; hence each is idempotent and any two commute |
| Migration.OrderDoesNotMatter | RHEL6_7/services/tomcat/post-tomcat.py:317-324 | the outcome of any run of passes depends only on which passes occur in it |
| Migration.RewriteIsExact | RHEL6_7/services/tomcat/post-tomcat.py:115-196 | element by element: no deprecated attribute is left, randomClass moves to secureRandomClass with its value, only the named text is replaced, and nothing else changes |
| Migration.LocalIff | RHEL6_7/services/tomcat/xml/NoisyElementTree.py:29-34 | a tag has a local name if it is that name or ends in it after a closing brace, and is ASCII |
| Migration.WhatAttribPassesChange | RHEL6_7/services/tomcat/post-tomcat.py:120-179 | the attributes that go and the one that is renamed, in literals |
| Migration.WhatTextPassChanges | RHEL6_7/services/tomcat/post-tomcat.py:186-189 | genStrAsCharArray becomes getStringAsCharArray in a param-name of a servlet, in any ASCII namespace |
| Migration.MigrationSurvivesPrinting | RHEL6_7/services/tomcat/post-tomcat.py:329-343 | writing the migrated tree and reading it back is migrating the tree that the original reads back as |
| Users.MigrateRoles | RHEL6_7/services/tomcat/post-tomcat.py:93-109 | the roles of a user are left as they were; the flags say whether admin or manager is among them |
| Users.AnnouncedIff | RHEL6_7/services/tomcat/post-tomcat.py:93-109 | the announced value and the one written agree exactly when neither admin nor manager is among the roles |
| Users.AdminIsAnnounced | RHEL6_7/services/tomcat/post-tomcat.py:95-101 | for a user with the role admin, admin-gui is announced and admin written |
| Users.RolesSplit | RHEL6_7/services/tomcat/post-tomcat.py:94-109 | roles are separated and joined by commas |
| IterParse.IterParseIterator.Next | RHEL6_7/services/tomcat/xml/ElementTree.py:1254-1282 | call n gives the answer that the file determines (`IterParse.Nth`), with as many events produced; what was delivered followed by what is buffered is all that was produced, in order; a raise comes with everything delivered exactly if it is not the first failure of a closing that has produced events; the end comes only after everything |
| IterParse.EarlyIff | RHEL6_7/services/tomcat/xml/ElementTree.py:1254-1282 | over every run, call n raises an error ahead of an event already produced if and only if it is the first call after the blocks' answers and closing both fails and produces an event |
| IterParse.NeverEarlyIff | RHEL6_7/services/tomcat/xml/ElementTree.py:1276-1282 | no raise of a run is early if and only if closing does not fail or produces no event |
| IterParse.RaisedOnceIff | RHEL6_7/services/tomcat/xml/ElementTree.py:1262-1282 | before the answers repeat each error is raised once, in order; it stays at once, and the end is ever reported, if and only if closing does not fail |
| IterParse.Overtaken | RHEL6_7/services/tomcat/xml/ElementTree.py:1280-1282 | a file of one block without an event, whose closing produces one event and fails: the first call raises, the second delivers |
| IterParse.IterParseIterator.CloseParser | RHEL6_7/services/tomcat/xml/ElementTree.py:1274-1282 | an error from closing is raised at once, with only the events from before closing delivered |
| Dnsmasq.RemoveComments | RHEL6_7/networking/dnsmasq/check:201-211 | the text has, in order and once each, exactly the stripped lines that are neither empty nor start with a hash sign, each with a newline |
| Dnsmasq.NoCommentLeft | RHEL6_7/networking/dnsmasq/check:201-211 | no line of the text is blank or a comment |
| Dnsmasq.CommentGoes | RHEL6_7/networking/dnsmasq/check:201-211 | of a comment and an indented setting the setting stays, without the blanks |
| Dnsmasq.StripIsTight | RHEL6_7/networking/dnsmasq/check:208 | stripping takes blanks from both ends and nothing else, and leaves none there |
| Dnsmasq.BlankIs | RHEL6_7/networking/dnsmasq/check:208 | the characters that stripping takes, in literals |
| Dnsmasq.FilteredTwice | RHEL6_7/networking/dnsmasq/check:201-211 | filtering a filtered buffer, read line by line, changes nothing |
| Dnsmasq.JoinedTwice | RHEL6_7/networking/dnsmasq/check:248-262 | joining the directory twice gives the listed path if and only if the directory is absolute or empty |
| Dnsmasq.RelativeJoinedTwice | RHEL6_7/networking/dnsmasq/check:248-262 | the file a of the directory conf.d is looked for as conf.d/conf.d/a |
| Dnsmasq.AbsoluteDirsReach | RHEL6_7/networking/dnsmasq/check:248-277 | if every conf-dir that a reachable file names is absolute, the files reached are those of the same system with directories joined once |
| Dnsmasq.Loader.IsFileLoaded | RHEL6_7/networking/dnsmasq/check:214-221 | true if and only if the path is among those loaded |
| Dnsmasq.FilterIff | RHEL6_7/networking/dnsmasq/check:252-257 | of the files in a directory exactly those are skipped that end in a tilde, start with a dot, or start and end with a hash sign |
| Dnsmasq.ReachableIff | RHEL6_7/networking/dnsmasq/check:268-277 | a file is reached exactly if it is the main file, or a readable file that is reached names it, or names a directory that lists it past the filter |
| Dnsmasq.NothingStuckIff | RHEL6_7/networking/dnsmasq/check:235-260 | nothing is stuck exactly if every file reached can be opened and every directory that one names can be listed |
| Dnsmasq.Loader.LoadConfigFile | RHEL6_7/networking/dnsmasq/check:229-245 | a path is loaded once; failure means that something reachable cannot be opened |
| Dnsmasq.Loader.LoadConfigFromDir | RHEL6_7/networking/dnsmasq/check:248-262 | everything that passes the filter is loaded |
| Dnsmasq.Loader.LoadMoreConfig | RHEL6_7/networking/dnsmasq/check:224-277 | the walk over the growing list ends on every finite file system, include cycles and aliased paths included, with the includes of every listed file loaded |
| Dnsmasq.Loader.Load | RHEL6_7/networking/dnsmasq/check:280-300 | it succeeds if and only if everything reachable can be opened and listed; then the list holds exactly the least set closed under includes, each path once, with its comments removed |
| Dnsmasq.FewFiles | RHEL6_7/networking/dnsmasq/check:268-277 | the list can never be longer than the finite set of paths that the file system can bring in |
| Grub.FixFile | RHEL6_7/system/grubby/postupgrade.sh:3-48 | the read loop with its two flags writes what the specification `Grub.Emit` says, the initrd line at the end of the file and what echo does to a line of options included |
| Grub.LineKinds | RHEL6_7/system/grubby/postupgrade.sh:18-34 | title, kernel and initrd lines are exactly those with that word after nothing but white space |
| Grub.IndentedKernelNamed | RHEL6_7/system/grubby/postupgrade.sh:27-48 | an indented kernel line with an argument, at the end of the file, gets its initrd line, character by character |
| Grub.AddedLinesErase | RHEL6_7/system/grubby/postupgrade.sh:15-48 | deleting the added lines gives back the file as echo copies it, for every file |
| Grub.ErasureIff | RHEL6_7/system/grubby/postupgrade.sh:15-48 | it gives back the file itself if and only if no line is a list of echo's options |
| Grub.OptionsAreLost | RHEL6_7/system/grubby/postupgrade.sh:22-41 | a line -n is lost, and a line -e becomes an empty line |
| Grub.BeforeTitle | RHEL6_7/system/grubby/postupgrade.sh:17-25 | up to the first title the file is copied by echo and nothing is added |
| Grub.AddedLinesAreRight | RHEL6_7/system/grubby/postupgrade.sh:27-48 | every added line stands right after a kernel line of the file and has the name that the two substitutions make of it |
| Grub.AddedLinesNameImage | RHEL6_7/system/grubby/postupgrade.sh:36-37 | that name is made from the kernel's image, the first word after `kernel`, if and only if one blank stands before the image and one after it, or there is no image and at least two blanks |
| Grub.ReplaceFirst | RHEL6_7/system/grubby/postupgrade.sh:36 | the second substitution replaces the first occurrence of vmlinuz and nothing else |
| Grub.BareKernelNamed | RHEL6_7/system/grubby/postupgrade.sh:36 | for the line `kernel /vmlinuz-1` the added line names `kernel /initramfs-1` |
| Grub.DoubleBlankNamed | RHEL6_7/system/grubby/postupgrade.sh:36 | for a line with two blanks before the image no name is left |
| Grub.AddedOnesCounted | RHEL6_7/system/grubby/postupgrade.sh:27-48 | exactly one line is added for each kernel line from the first title on that is in an odd place of a run of neighbours and not followed by an initrd line |
| Grub.NoNeighboursCounted | RHEL6_7/system/grubby/postupgrade.sh:27-48 | without neighbouring kernel lines, exactly one for each kernel line from the first title on that is not followed by one |
| Grub.CompleteIff | RHEL6_7/system/grubby/postupgrade.sh:15-48 | in the output every kernel line from the first title on is followed by an initrd line if and only if each kernel line in an even place of a run of neighbours is followed by one already, lines that echo loses left aside |
| Grub.CompleteMeans | RHEL6_7/system/grubby/postupgrade.sh:15-48 | complete means: each kernel line at or after some title is immediately followed by an initrd line |
| Grub.NoNeighboursComplete | RHEL6_7/system/grubby/postupgrade.sh:15-48 | in particular whenever no two kernel lines are neighbours |
| Grub.NeighbourMissed | RHEL6_7/system/grubby/postupgrade.sh:33-39 | a file with two neighbouring kernel lines whose second one stays without an initrd line |
| Grub.UnchangedIff | RHEL6_7/system/grubby/postupgrade.sh:15-48 | a file is left alone if and only if it is complete and no line is a list of echo's options |
| Grub.IdempotentIff | RHEL6_7/system/grubby/postupgrade.sh:15-48 | a second run changes nothing exactly under the condition of CompleteIff; a third run never changes anything |
| Grub.TwiceIsComplete | RHEL6_7/system/grubby/postupgrade.sh:15-48 | two runs complete every file |
| Evr.FormatThenParse | RHEL6_7/system/SystemVersion/rpmdev-vercmp:43-80 | parsing undoes formatting if and only if the epoch has no colon, the version no dash, and without an epoch neither version nor release has a colon |
| Evr.ParseThenFormat | RHEL6_7/system/SystemVersion/rpmdev-vercmp:43-80 | formatting undoes parsing if and only if the string does not start with a colon and the release separator is not its last character |

## Left out

- The parser library: its place is taken by a reader of documents without document type declaration, CDATA sections and
  processing instructions.
- Reader.SkipDeclaration: an XML declaration has to name a version first; of what follows only the encoding is looked at.
  A document that names us-ascii must hold nothing else; other names are not checked, since text is characters here.
- Reader.ReadDocument: white space outside the root may be written as character references, which XML 1.0 does not
  allow in section 2.8. The writer never does so; the reader only accepts more there.
- Legality: the round trips assume what XML itself cannot carry through the code's escapes. No carriage return in text,
  comments, attribute values or URIs, and no tab in attribute values or URIs; local names are NCNames, URIs are not empty
  and not that of `xmlns`, no attribute is called `xmlns`, comments are legal under section 2.5 of XML 1.0 and hold only
  characters of the encoding. `Escaping` has the exact conditions for text and for attribute values.
- Empty text and missing text are written alike, so the round trip identifies them (`FrontEnd.Normal`).
- Processing instructions, QName objects and elements without a tag in the tree, and the html and c14n serializers.
- The default_namespace argument of write; post-tomcat.py does not use it.
- Bytes: output is a sequence of characters, and of the encodings only which characters they hold is modelled. The
  conversion of parsed strings to str shows only in `Migration.IsLocal`, where tags outside ASCII are skipped.
- What has already been written to a file when an exception stops the writer.
- IterParse.IterParseIterator.Next: what a block of the file makes the parser do is a parameter, so it is not tied to the
  reader above; opening and closing the file is left out.
- Dnsmasq.Loader.Load: the two searches for settings are arbitrary functions from buffers to paths; path lookup is an
  arbitrary function into finitely many files and directories. A directory that is listed is not changed meanwhile.
- Grub.FixFile: a file is a sequence of lines; backslashes, which `read` without -r and `echo -e` take for escapes, a
  last line without a line end, and the moving of the temporary file are left out.
- Users.MigrateRoles: the roles attribute of one user; renaming the role elements is left out, and so are users without
  the attribute, which stop the script.
- PostUpgrade.MigrateFiles: the trees are values here, one for each file; `Passes.MigrateFile` has the changes in place
  for one tree. Renaming role elements in the file of users is left out.
- NSElement.namespace and iter_same_ns (the braces are put on twice), iter_ignore_ns without a tag, and parse without a
  parser, which names an undefined class.
- The search for web applications, back-ups, packages, logging and solution texts; `RHEL6_7/services/tomcat/check`, which
  repeats the passes; rpm.labelCompare and the remaining checks of the dnsmasq module.
