# Verified models of the hard core of ZANavi

This project models, in Dafny 4.11, the parts of the ZANavi sources whose correctness is hardest to
see, and proves what they are for: the compiler for plural-form expressions, the adaptive
replacement cache and the split-file reader in front of which it stands, the index and the loader
of message catalogs, the printf engine, the command evaluator, the locale-name machinery and the
crash-handler protocol.  `dafny verify dfyconfig.toml` checks everything.

A module is named after the component and the job it does.

* `Plural*` — intl/plural.c, intl/plural-exp.c, intl/eval-plural.h and `plural_lookup`.  The LALR
  tables are copied as they stand.  `PluralTables` proves that decoding them gives a small readable
  action function, `PluralMachine` that every step of the automaton keeps its stack a prefix of a
  well-formed phrase (soundness), `PluralComplete` that every well-formed phrase is accepted, with
  the exact stack depth it needs, and `PluralParser` that the loop with its growing arrays, its
  default actions and its error recovery is that automaton.  `PluralText` and `PluralLexer` do the
  same for the scanner, `PluralForms` puts evaluation, the round trip, extraction and selection on top,
  and `PluralWriting` and `PluralCatalogs` carry this through for the headers of the catalogs in po/.
* `Arc*`, `File*` — navit/cache.c and navit/file.c.  `ArcSpec` says what each cache operation does to
  the contents of the four lists, and `ArcPolicy` what that comes to: how the target moves and which
  entry leaves.  `ArcList` is the doubly linked list, `ArcCache` the whole cache on those lists with
  its index, each operation proved against `ArcSpec`.  `ArcRuns` and `ArcEvents` prove what every
  operation and every run keeps.  `FileSplit` reads one logical file from its pieces; `FileReader`
  puts the cache in front of it.
* `Catalog*` — intl/hash-string.h, `_nl_find_msg`, and the system-dependent strings of
  `_nl_load_domain`.
* `Printf*` — intl/xsize.h, intl/printf-parse.c, intl/printf-args.c, intl/vasnprintf.c.  The format
  language is that of section 7.19.6.1 of ISO/IEC 9899:1999 with the `%n$` positions of the X/Open
  System Interfaces.  `PrintfExact` proves that exactly these directives are accepted, `PrintfRebuild`
  that what is handed to `snprintf` asks for what the format does.
* `Command*` — the integer part of the expression evaluator in navit/command.c.  `CommandTree` proves
  that it evaluates the text of every tree, `CommandExact` that it accepts no other text, apart from
  texts with a part that the model leaves out, and `CommandLaws` what the operators come to.
* `Locale*` — intl/explodename.c and intl/l10nflist.c; `LocaleRound` ties the two together.
* `CrashGuard` — the protocol of navit/coffeecatch.c as interleaved steps of any number of threads.
* `Basics` — what the others share: options, digits, `strcmp`.

Integers are unbounded unless a wrap-around, a cap or a range is written out.  The platform is one
with 32-bit `unsigned long` and `size_t`.  C strings are sequences without NUL; where a NUL matters
it is in the array.

The code and its comments disagree in two places, and the models follow the code.
`_nl_explode_name` compares the codeset with its normal form before the text behind the codeset has
been cut off (intl/explodename.c:110), so a name with a modifier always gets a normalised codeset.
For XPG names with an empty modifier it clears `XPG_MODIFIER` but not `CEN_AUDIENCE`
(intl/explodename.c:180).  A locale name with a revision and no sponsor gets a comma in its file name
that the name does not have (`LocaleRound.NameRejoins`).

## Model

| member | source | states |
|---|---|---|
| PluralTables.TablesRealise | intl/plural.c:163-294 | in all 27 states and for every token the decision read from yypact, yytable, yycheck and yydefact, default reductions included, is the one of the precedence grammar |
| PluralTables.GotosRealise | intl/plural.c:1108-1119 | the transitions on nonterminals are those of the grammar |
| PluralTables.NoErrorShift | intl/plural.c:1250-1260 | no state shifts the error token |
| PluralTables.RulesRealise | intl/plural.c:233-244 | left-hand side and length of each rule |
| PluralTables.TranslateCode | intl/plural.c:160-193 | the token numbers of the scanner translate to the symbols of the grammar |
| PluralLexer.YyLex | intl/plural.c:1343-1483 | the scanner loop returns code, value and cursor of the next token of the text, and leaves the value alone for tokens that have none |
| PluralLexer.ReadNumber | intl/plural.c:1369-1376 | the digit loop, wrapping around at every step, ends with the decimal value modulo 2^32 |
| PluralText.ScanSpelled | intl/plural.c:1349-1483 | a token that is written down after blanks is read back, and the cursor is right behind it |
| PluralText.TokensOfText | intl/plural.c:1343-1483 | a sequence of tokens written with any blanks between them, where they would not run together, is read back as it is |
| PluralText.YieldCompact | intl/plural.c:1343-1483 | the tokens of a phrase never run together, so a phrase can be written without blanks |
| PluralWriting.Signs | intl/plural.c:1369-1483 | each sign written behind "n" and in front of any number, wherever it stands, is read as its operator |
| PluralSyntax.MinimalDenotes | intl/plural.c:163-294 | printing with minimal parentheses obeys the precedences and denotes the tree it came from |
| PluralSyntax.MinimalIsMinimal | intl/plural.c:163-294 | no well-formed way of writing a tree has fewer parentheses |
| PluralMachine.ReduceKeeps | intl/plural.c:965-1119 | each reduction finds its handle, and what it builds is a well-formed phrase that spells the same tokens and fits the state beneath |
| PluralMachine.StepKeeps | intl/plural.c:851-1119 | each step keeps stack and remaining input valid and loses no token |
| PluralMachine.RunSound | intl/plural.c:674-1312 | what the automaton accepts is a well-formed phrase that spells the whole input |
| PluralComplete.PhraseParses | intl/plural.c:851-1119 | from any state that waits for an operand a well-formed phrase is reduced to its tree in a known number of steps, unless the stack would need as many entries as it may have, whatever that limit is |
| PluralComplete.InputParses | intl/plural.c:674-1312 | for any limit of the stack above 3, a well-formed input is accepted as its own tree exactly when its height stays below the limit, and overflows otherwise |
| PluralComplete.Unambiguous | intl/plural.c:163-294 | two well-formed phrases with the same tokens are the same phrase, however deep |
| PluralParser.SemanticCarries | intl/plural.c:1010-1093 | the semantic actions find the values of their operands on the value stack and leave the value of the new phrase |
| PluralParser.EnsureRoom | intl/plural.c:764-838 | the stacks grow by copying, lose nothing, and overflow exactly at YYMAXDEPTH |
| PluralParser.Backup | intl/plural.c:851-949 | looking ahead reads a token only when the tables need one, and decides as the grammar does |
| PluralParser.ReduceBy | intl/plural.c:965-1119 | popping the right-hand side and pushing the left-hand side on the arrays is the reduction of the automaton |
| PluralParser.ShiftBy | intl/plural.c:921-949 | pushing the lookahead's value on the arrays is the shift of the automaton |
| PluralParser.Recover | intl/plural.c:1125-1304 | error recovery always pops to the bottom and aborts |
| PluralParser.YyParse | intl/plural.c:674-1312 | on every text `yyparse` halts; it returns 0 exactly for a well-formed phrase that fits the stack, with its tree, 2 for a well-formed phrase that does not fit, and 1 or 2 for everything else |
| PluralForms.RoundTrip | intl/plural.c:674-1312 | printing any expression with minimal parentheses and any blanks, inside any text, and parsing it gives back that expression |
| PluralForms.EvalInRange | intl/eval-plural.h:25-108 | evaluation stays within unsigned long |
| PluralForms.ApplyInRange | intl/eval-plural.h:60-94 | so does each operator |
| PluralForms.Branches | intl/eval-plural.h:99-104 | "?:" has the value of its second operand when the first is not 0 and of its third when it is |
| PluralForms.Leaves | intl/eval-plural.h:30-48 | the variable is n, a literal itself, and "!" is 1 for 0 and 0 for everything else |
| PluralForms.Connects | intl/eval-plural.h:51-55 | "||" and "&&" are 1 or 0, and do not evaluate their right operand when the left one decides |
| PluralForms.Compares | intl/eval-plural.h:78-89 | comparisons are 1 exactly when the relation holds, and 0 otherwise |
| PluralForms.Computes | intl/eval-plural.h:62-77 | sum, difference and product modulo 2^32, quotient and remainder, and no value for a division by zero |
| PluralForms.GermanicRule | intl/plural-exp.c:41-61 | the default rule: form 0 for one, form 1 for everything else |
| PluralForms.Find | intl/plural-exp.c:107-108 | strstr finds the first occurrence |
| PluralForms.VerdictSpecifies | intl/plural-exp.c:137-141 | a header specifies a rule exactly when the parser accepts the text after "plural=" |
| PluralForms.ExtractPluralExpression | intl/plural-exp.c:97-154 | the rule and the number of forms of the header if it specifies a rule, the Germanic rule with 2 forms in every other case |
| PluralForms.VariantsCover | intl/dcigettext.c:1055-1073 | the stored variants with their NULs are the whole translation block |
| PluralForms.VariantsPlain | intl/dcigettext.c:1055-1073 | no variant contains a NUL |
| PluralForms.PluralLookup | intl/dcigettext.c:1042-1074 | the pointer stays in the block and points at variant `plural_eval (n)` if that is below nplurals and below the number of variants, at variant 0 otherwise |
| PluralCatalogs.Written | po/ru.po:17-18 | the plural expression of each catalog, as it stands there, is a well-formed phrase |
| PluralCatalogs.Ruled | po/cs.po:17 | for every n each of these expressions evaluates to the form that its rule says in plain arithmetic on n, which is below the number of forms |
| PluralCatalogs.Specified | intl/plural-exp.c:97-141 | a header that contains the rule of a catalog specifies it, whatever stands before and behind |
| PluralCatalogs.Shown | intl/dcigettext.c:1042-1074 | from the header text through extraction and lookup: for every n the variant that is shown is the one that the rule says |
| ArcList.EntryList.InsertMru | navit/cache.c:111-124 | the entry becomes the head of a well-formed list with the right size |
| ArcList.EntryList.Remove | navit/cache.c:126-137 | the entry is unlinked wherever it stands, and the others stay in order |
| ArcList.EntryList.RemoveLast | navit/cache.c:149-162 | the tail is unlinked |
| ArcList.EntryList.RotatePinned | navit/cache.c:168-173 | the loop halts with only pinned entries moved to the front, and has seen the whole size exactly when every entry is pinned |
| ArcList.EntryList.RemoveLru | navit/cache.c:164-188 | the victim is the unpinned entry nearest the tail, the rest keeps its cyclic order, and with every entry pinned the list is as before |
| ArcLink.RemoveLru | navit/cache.c:164-188 | the same in terms of what the entries hold |
| ArcSpec.LastUnpinned | navit/cache.c:164-188 | position of the unpinned entry nearest the tail |
| ArcSpec.WithoutIs | navit/cache.c:168-182 | moving the entries behind the victim to the front one by one and taking the victim leaves those behind it followed by those before it |
| ArcLink.TrimEntry | navit/cache.c:214-243 | an entry with data is replaced by a bare one, also in the index |
| ArcCache.MoveSeen | navit/cache.c:245-255 | the victim of one list, cut down, becomes the head of another; two other lists and the index of all other entries are untouched |
| ArcCache.Cache.constructor | navit/cache.c:82-109 | a new cache is empty and valid |
| ArcCache.Cache.InOneList | navit/cache.c:111-147 | every indexed entry is in exactly one of the four lists, the one its `where` names |
| ArcCache.Cache.Positions | navit/cache.c:301-314 | looking an id up in the index agrees with searching each list |
| ArcCache.Cache.Replace | navit/cache.c:257-279 | one victim goes from t1 to b1 or from t2 to b2 as the target demands, with the other pair as fall-back |
| ArcCache.Cache.RemoveLru | navit/cache.c:164-188 | a victim that is freed leaves the index too |
| ArcCache.Cache.Hit | navit/cache.c:318-339 | a resident entry goes to the head of t2 with one more holder |
| ArcCache.Cache.GhostHit | navit/cache.c:340-366 | a ghost adapts the target within 0 and the size, never dividing by zero, makes room and is forgotten |
| ArcCache.Cache.Lookup | navit/cache.c:301-367 | the block of a resident id, null for every other; new contents, target and insertion list as specified |
| ArcCache.Cache.MakeRoom | navit/cache.c:373-399 | which ghost or resident is dropped and whether one is replaced before an insert |
| ArcCache.Cache.Insert | navit/cache.c:369-401 | the new entry heads the chosen list after room has been made |
| ArcCache.Cache.InsertNew | navit/cache.c:403-409 | new memory of the size asked for, indexed under the id, held once |
| ArcCache.Cache.EntryDestroy | navit/cache.c:207-212 | the entry in front of the block has one holder less, and nothing else changes |
| ArcCache.Cache.Flush | navit/cache.c:281-289 | the id is gone from its list and from the index, held or not, and no other entry has moved |
| ArcPolicy.HitPromotes | navit/cache.c:318-339 | a hit moves the entry to the head of t2 with one holder more, and nothing else changes |
| ArcPolicy.ReplaceEvicts | navit/cache.c:257-279 | the entry that leaves goes from t1 to b1 when t1 has an idle one and is not empty and at least as large as the target, or t2 has no idle one, and from t2 to b2 otherwise; it is the idle one nearest the tail, and the other pair is unchanged |
| ArcPolicy.GhostAdapts | navit/cache.c:340-366 | a hit in b1 raises the target by the larger of the quotient of the totals and 1, up to the size, and a hit in b2 lowers it likewise, down to 0; the ghost goes, and an entry is evicted by that rule with the new target |
| ArcPolicy.TargetMoves | navit/cache.c:301-409 | the target moves strictly at such hits unless it is at its limit, and at no other event |
| ArcPolicy.RoomIs | navit/cache.c:373-398 | which totals make an entry of t1 free, a ghost forgotten, an entry evicted, or nothing leave before an insert |
| ArcPolicy.InsertPlaces | navit/cache.c:369-401 | a new entry heads t2 after a ghost hit, with nothing leaving, and t1 otherwise, after room has been made |
| ArcPolicy.ReleaseUnpins | navit/cache.c:207-212 | giving a block back takes one holder from its entry and changes nothing else |
| ArcPolicy.FlushTakes | navit/cache.c:281-289 | flushing takes the entry of the id out of its list and changes nothing else |
| ArcRuns.MovedKeeps | navit/cache.c:245-255 | moving a victim keeps the invariant: sizes, ghosts bare and unheld, one entry per id and per block, target in range |
| ArcRuns.ReplaceKeeps | navit/cache.c:257-279 | so does replacing |
| ArcRuns.HitKeeps | navit/cache.c:318-339 | so does a hit |
| ArcRuns.GhostSum | navit/cache.c:348-356 | the list of a ghost hit has a positive size, so the divisions are safe |
| ArcRuns.MissKeeps | navit/cache.c:340-366 | a failing lookup keeps the invariant and leaves no entry of the id anywhere |
| ArcRuns.RoomKeeps | navit/cache.c:373-399 | making room keeps the invariant, loads nothing and drops nothing that is held |
| ArcRuns.InsertKeeps | navit/cache.c:369-401 | so does inserting |
| ArcEvents.RunKeeps | navit/cache.c:191-401 | the invariant holds after every run of lookups with inserts, releases and flushes |
| ArcEvents.HeldStays | navit/cache.c:164-255 | whatever happens next, an entry that is held stays resident with its memory |
| ArcEvents.GetServes | navit/cache.c:301-409 | what a request hands out is resident under its id and held |
| ArcEvents.EventPins | navit/cache.c:207-212 | one holder more for what is handed out, one less for what is given back, and no other change |
| ArcEvents.RunPins | navit/cache.c:191-401 | conservation: over any run the holders of a block are the times it was handed out less the times it was given back |
| ArcEvents.OutstandingStays | navit/cache.c:191-401 | a block handed out more often than given back is still in the cache after any run |
| ArcEvents.RunSpace | navit/cache.c:257-401 | with blocks of one size S and nothing held at a miss, after every run the residents take less than size + S and all four lists together less than 2 size + S + entry_size |
| FileSplit.WholeHas | navit/file.c:255-312 | piece k of the logical file begins at k times the piece size |
| FileSplit.PieceNamed | navit/file.c:471-479 | the first piece has the name of the file, each other one its decimal number behind a dot |
| FileSplit.File.constructor | navit/file.c:167-222 | opening a regular file counts its pieces |
| FileSplit.File.FileSize | navit/file.c:255-312 | the pieces are those up to the first gap, at most 50, and the size is that of their concatenation |
| FileSplit.File.Open | navit/file.c:457-481 | the open descriptor is that of the piece `current_splitter` says |
| FileSplit.File.ReadPieces | navit/file.c:446-556 | the loop over the pieces ends, and succeeds exactly when the request lies inside the file, with exactly that slice of the concatenated pieces in the buffer |
| FileSplit.File.ReadInto | navit/file.c:425-556 | the same for files with and without pieces |
| FileReader.Reader.FileDataRead | navit/file.c:387-557 | a cached read returns the bytes of the file whatever was read and freed before, and is one request event of the cache |
| FileReader.Reader.FileDataFree | navit/file.c:1044-1070 | giving a block back changes no bytes and is one release event of the cache |
| FileReader.Reader.constructor | navit/file.c:1398-1411 | a new reader is valid |
| CatalogHash.HashString | intl/hash-string.h:28-48 | the loop computes the hash, which the next rows determine |
| CatalogHash.HashNext | intl/hash-string.h:36-45 | one character more makes h = 16 times the hash plus the character; the new hash is h below 2^28, h mod 2^28 xor 16 times the four bits above for 32 bits, and h - 2^32 beyond |
| CatalogHash.XorBits | intl/hash-string.h:42-43 | what the exclusive or is |
| CatalogHash.HashPositional | intl/hash-string.h:28-48 | the hash is the number with the characters as digits to the base 16 exactly as long as that number is below 2^28 |
| CatalogHash.ShortHash | intl/hash-string.h:28-48 | so it is for five characters, and for six not above 240 |
| CatalogHash.RollsOver | intl/hash-string.h:36-37 | a string after which one more character makes 33 bits |
| CatalogHash.HashClear | intl/hash-string.h:38-45 | the top four bits of a hash are clear after every character, so no shift loses anything |
| CatalogHash.PrimeProduct | intl/dcigettext.c:759-760 | what makes double hashing work: a prime that divides a product of two positive numbers is at most as large as one of them |
| CatalogHash.SlotAt | intl/dcigettext.c:758-794 | round j probes slot (hash + j (1 + hash mod (size - 2))) mod size |
| CatalogHash.SlotsDiffer | intl/dcigettext.c:791-794 | for a prime size no slot is probed twice |
| CatalogHash.EverySlot | intl/dcigettext.c:791-794 | for a prime size every slot is probed |
| CatalogIndex.FindByHash | intl/dcigettext.c:754-795 | the probe loop halts and returns the first match before an empty slot |
| CatalogIndex.PlaceSearch | intl/loadmsgcat.c:1321-1343 | filling the first empty slot of an id changes no answer except that this id is now found |
| CatalogIndex.PlaceFinds | intl/loadmsgcat.c:1321-1343 | in any table, even one with entries that no search reaches, an id that was found keeps its answer and the added id is found |
| CatalogIndex.AugmentedFinds | intl/loadmsgcat.c:1317-1343 | so does the whole loop, on every table on which it ends |
| CatalogIndex.FreeSlots | intl/loadmsgcat.c:1321-1343 | it ends on every table of prime size with a free slot for each added id |
| CatalogIndex.AugmentedSearch | intl/loadmsgcat.c:1317-1343 | when each entry of the table can be found, every id answers after augmentation as before, or else with the first added entry of that id, and no other id is found |
| CatalogIndex.ExpectedMeans | intl/loadmsgcat.c:1317-1343 | that answer in plain words |
| CatalogIndex.Augment | intl/loadmsgcat.c:1321-1343 | given that the probes of each added id come to an empty slot, without which the loop never ends, it halts, writes only empty slots, and yields that table |
| CatalogIndex.FindsIff | intl/dcigettext.c:754-795 | with every entry placed, an id is found exactly when it is in the catalog, at its own entry |
| CatalogIndex.BuiltFromEmpty | intl/loadmsgcat.c:1321-1343 | a table filled from nothing by this loop finds everything |
| CatalogIndex.FindBySearch | intl/dcigettext.c:796-823 | binary search in a sorted catalog finds an id exactly when it is there |
| CatalogIndex.BranchesAgree | intl/dcigettext.c:754-823 | on a sorted catalog both branches give the same answer |
| CatalogLoad.Measure | intl/loadmsgcat.c:1118-1181 | the first pass fails exactly on a segment reference out of range, and else counts the usable pairs and the bytes they need |
| CatalogLoad.KeptUsable | intl/loadmsgcat.c:1126-1178 | the pairs that are kept are exactly the usable ones |
| CatalogLoad.StillValid | intl/loadmsgcat.c:1208-1242 | the second pass, which does not check the range again, calls the same strings valid |
| CatalogText.ScanMeans | intl/loadmsgcat.c:1126-1178 | the first segment that does not go on decides: an end mark, a reference out of range or an unknown segment, and with an end mark the size is the sum of the pieces and values |
| CatalogText.ExpandMeans | intl/loadmsgcat.c:1281-1308 | each piece and each segment value stands in the copied string where the sizes before it say |
| CatalogLoad.CopySegments | intl/loadmsgcat.c:1281-1308 | the copied bytes are the expanded segments, as many as were measured |
| CatalogLoad.CopyAll | intl/loadmsgcat.c:1202-1315 | the second pass keeps exactly the pairs counted, so the abort is unreachable, fills the block to its last byte, and each descriptor's text is the expanded string |
| CatalogDomain.LoadStrings | intl/loadmsgcat.c:1118-1315 | both passes together |
| CatalogText.IdEnds | intl/loadmsgcat.c:1321-1330 | the id of a new entry is what stands before the first NUL |
| CatalogDomain.LoadTable | intl/loadmsgcat.c:1317-1343 | the new table is a copy of the old one, augmented |
| CatalogDomain.LoadSysdep | intl/loadmsgcat.c:1118-1343 | the whole of it: strings in memory, ids in the table |
| CatalogDomain.LoadedKeeps | intl/loadmsgcat.c:1118-1343 | after loading, whatever the table of the file is like, ids it found keep their entry and the id of every usable pair is found |
| CatalogDomain.LoadedFinds | intl/loadmsgcat.c:1118-1343 | after loading into a table that finds all of the file's ids, an id is found exactly if the file or a usable pair has it, and ids the file had keep their entry |
| PrintfSize.Xsum | intl/xsize.h:57-61 | the wrapping sum with its overflow test is the sum capped at SIZE_MAX |
| PrintfSize.Xsum4 | intl/xsize.h:78-82 | likewise for four |
| PrintfSize.Xtimes | intl/xsize.h:99-100 | the product is capped without ever wrapping |
| PrintfSize.DigitStep | intl/printf-parse.c:145-150 | one more digit keeps a run of digits at its decimal value capped at SIZE_MAX |
| PrintfParse.ReadNumber | intl/printf-parse.c:145-150 | a digit run evaluates to the minimum of its decimal value and SIZE_MAX |
| PrintfParse.ReadPosition | intl/printf-parse.c:134-157 | a "n$" position, none, or a position out of range |
| PrintfParse.Arguments.Use | intl/printf-parse.c:83-113 | the table of argument types after one more use, growing without losing an entry; it fails exactly for a second type, or when the size of the grown table overflows |
| PrintfParse.Directives.Append | intl/printf-parse.c:501-519 | the directive array grows so that there is always room for the directive being read |
| PrintfParse.ReadDirective | intl/printf-parse.c:120-500 | one directive: flags, width, precision, size, conversion, and its arguments registered |
| PrintfParse.PrintfParse | intl/printf-parse.c:115-524 | on success directives, argument types and longest width and precision are those of the format; it fails only for bad syntax, an argument with two types, or a table too large |
| PrintfSyntax.RegisterMore | intl/printf-parse.c:83-113 | registering is compositional |
| PrintfText.RoundTrip | intl/printf-parse.c:120-500 | writing any directive with position, flags, width, precision and size and parsing it gives back its parts, wherever it stands |
| PrintfExact.AcceptsExactly | intl/printf-parse.c:120-500 | a directive is accepted exactly when it can be written down from well-formed parts, and it is then the one written |
| PrintfRebuild.IntegerTypes | intl/printf-parse.c:364-455 | which integer type "d", "i", "o", "u", "x", "X" and "n" take, by how often "h", "l", "j" and "L" stand before them, in any order |
| PrintfRebuild.OtherTypes | intl/printf-parse.c:400-480 | which type the other conversions take, and that there are no more |
| PrintfText.ParseTiles | intl/printf-parse.c:115-524 | the directives of a format are ordered and disjoint, and no gap between them has a '%' |
| PrintfText.GluedIs | intl/printf-parse.c:115-524 | gaps and directives make up the format |
| PrintfArgs.RegisterMeans | intl/printf-parse.c:83-113 | registration succeeds exactly when each position is always used with one type, and then the table gives each position that type |
| PrintfArgs.FetchArgs | intl/printf-args.c:29-118 | fetching takes the arguments in order and succeeds exactly when no position is untyped |
| PrintfArgs.NoGaps | intl/printf-args.c:35-118 | no position is untyped exactly when no position is unreferenced |
| PrintfFormat.BuildDirective | intl/vasnprintf.c:501-563 | the directive rebuilt in the buffer, with "%n" behind it, never needs more than 7 + width + precision + 6 characters |
| PrintfRebuild.RebuiltRequests | intl/vasnprintf.c:501-563 | reading the rebuilt text as a directive gives the same flags, width, precision and conversion, for an argument of the registered type up to promotion, and nothing is left over |
| PrintfRebuild.FormatRequests | intl/vasnprintf.c:501-563 | so it is for every directive of a parsed format, with the type that the table of arguments has for it |
| PrintfRebuild.ArgumentsMatch | intl/vasnprintf.c:565-607 | the values for "*" and the argument are handed on in the order in which the rebuilt directive takes them |
| PrintfRebuild.OutputOrder | intl/vasnprintf.c:209-876 | a format whose directives come out as they are written comes out as it is written: outputs and text keep their order |
| PrintfFormat.EnsureAllocation | intl/vasnprintf.c:184-207 | the buffer grows to what is needed and keeps its text; it fails only for a size beyond SIZE_MAX |
| PrintfFormat.NextFair | intl/vasnprintf.c:757-830 | what one round of the retry loop concludes from the two numbers the host returns: the output fits, with the right length, or the buffer must grow, whenever numbers below the room are only returned for output that fits |
| PrintfFormat.FormatOne | intl/vasnprintf.c:580-848 | on every such host, also one that reports too small a count for output it has cut off, the retry loop ends and appends exactly what the directive produces, however often the buffer grows |
| PrintfFormat.CutsOff | intl/vasnprintf.c:757-830 | on any other host without "%n" the loop takes output that did not fit for the shorter text the host has reported |
| PrintfFormat.RightWhenFair | intl/vasnprintf.c:757-830 | such a round is right about the output exactly when the number returned is fair |
| PrintfFormat.FormatAll | intl/vasnprintf.c:209-876 | the output is the gaps and the outputs of the directives in order, with a NUL, on every such host; "%n" stores the length so far |
| PrintfRun.ParsedMatches | intl/vasnprintf.c:219-236 | the abort calls are unreachable: each directive of a parsed format finds its arguments with the types it needs |
| PrintfRun.BufferFits | intl/vasnprintf.c:147-148 | the directive buffer suffices for every directive of the format |
| PrintfRun.GapFree | intl/vasnprintf.c:126-131 | the arguments can be fetched exactly for formats that leave no position unused |
| PrintfRun.Vasnprintf | intl/vasnprintf.c:109-887 | the whole function, on every such host: the meaning of the format, with nothing written behind the allocated size of the buffer passed in, or an invalid format, or, where the host asks for no more than the output needs, an argument that cannot be formatted or a size beyond memory |
| CommandEval.BitwiseBit | navit/command.c:567-615 | each of the 32 bits of a bitwise result is the operator on the bits of the operands in two's complement |
| CommandEval.DivisionTruncates | navit/command.c:484-490 | "/" and "%" divide as C does: the remainder is smaller than the divisor and has the sign of the dividend |
| CommandLaws.Additive | navit/command.c:493-520 | the text of two numbers with "+", "-" or "*" between them evaluates to sum, difference or product, and has no value exactly when that is no int |
| CommandLaws.Multiplicative | navit/command.c:465-491 | with "/" and "%" to the quotient and remainder of C, undefined exactly for a zero divisor and the quotient that is no int |
| CommandLaws.Comparisons | navit/command.c:522-563 | with a comparison to 1 exactly when the relation holds, and to 0 otherwise |
| CommandLaws.Bitwises | navit/command.c:566-615 | with "&", "^" and "|" to the number with the stated bits |
| CommandLaws.Logic | navit/command.c:617-648 | with "&&" to 1 exactly when both are not 0, with "||" when one is |
| CommandLaws.Prefixes | navit/command.c:449-463 | "~" turns all bits, "!" is 1 for 0 and 0 for everything else |
| CommandLaws.Alternatives | navit/command.c:649-674 | "?:" chooses by its condition |
| CommandLaws.LastOfList | navit/command.c:692-705 | "," gives the last value |
| CommandLaws.Order | navit/command.c:465-648 | which operators bind more tightly than which |
| CommandLaws.Grouping | navit/command.c:465-648 | with two operators the tighter one comes first, and the first one when they are on one level |
| CommandLaws.WhiteSpace | navit/command.c:90-92 | which characters are white space; a vertical tab is an illegal character |
| CommandLaws.Unclosed | navit/command.c:354-444 | the errors for a missing ":", ")" and "]" |
| CommandRun.Context.GetOp | navit/command.c:83-105 | white space skipped, the first operator of the list that is there consumed, and nothing otherwise |
| CommandRun.Context.EvalValue | navit/command.c:256-326 | a whole number with an optional sign is read, white space before it skipped, the cursor behind it |
| CommandRun.Context.EvalBrace | navit/command.c:354-365 | value, error and cursor after a parenthesis or a value |
| CommandRun.Context.EvalPostfix | navit/command.c:417-444 | value, error and cursor after the loop over "[ ]" and "." behind an operand, which keep an integer |
| CommandRun.Context.EvalUnary | navit/command.c:449-463 | value, error and cursor after prefix operators |
| CommandRun.Context.EvalChain | navit/command.c:465-648 | value, error and cursor after the loop of each of the eight binary levels |
| CommandRun.Context.EvalConditional | navit/command.c:649-674 | value, error and cursor after "?:" |
| CommandRun.Context.EvalComma | navit/command.c:692-705 | value, error and cursor of an expression list |
| CommandTree.EvaluatesTree | navit/command.c:449-705 | evaluating the text of any well-formed tree, comma lists, "[ ]" and "." behind operands, leading zeros and any white space included, gives its value, no error, and the cursor at the end |
| CommandTree.MinimalMeans | navit/command.c:449-705 | minimal parentheses keep the meaning |
| CommandTree.EvaluatesMinimal | navit/command.c:449-705 | evaluating the minimally parenthesised text of any tree gives its value |
| CommandExact.ChainTree | navit/command.c:465-648 | soundness: what each level of the precedence chain reads without an error or a part left out is the text of a tree of that level and its value, up to white space |
| CommandExact.CommaTree | navit/command.c:692-705 | so is what the whole evaluator reads, parentheses, "[ ]", ".", "?:" and lists included |
| CommandExact.SuffixesTree | navit/command.c:423-443 | so is what the loop over "[ ]" and "." reads, which goes on behind the operand |
| CommandExact.ReadsExactlyTrees | navit/command.c:256-705 | a text is read to its end without an error, and without coming to a part left out, exactly when it is the text of a tree whose parts all have a value, and the result is the value of that tree |
| CommandExact.Evaluate | navit/command.c:747-756 | the evaluator itself, on any text, with the same condition |
| LocaleName.NormalizeCodeset | intl/l10nflist.c:367-404 | the result is the normal form and fills its block |
| LocaleName.NormalizeTwice | intl/l10nflist.c:367-404 | normalising is idempotent |
| LocaleName.FindLanguage | intl/explodename.c:40-48 | the language ends at the first separator |
| LocaleName.ExplodeName | intl/explodename.c:51-185 | the name overwritten at its separators, the pieces and the mask, for XPG and CEN names |
| LocaleName.ShapeOrdered | intl/explodename.c:73-168 | each part ends where the next begins, and the last at the end of the name |
| LocaleName.SplitJoins | intl/explodename.c:51-185 | the pieces with their separators make up the original name |
| LocaleRound.SplitsExactly | intl/explodename.c:40-168 | a name is split in the one way in which it can be read as language, territory, codeset, modifier, special, sponsor and revision |
| LocaleRound.NormalForms | intl/l10nflist.c:367-404 | letters and digits are kept in order and in lower case, all others dropped, and "iso" stands in front when there is no letter |
| LocaleName.BitsHavePieces | intl/explodename.c:92-184 | each bit of the mask has its piece |
| LocaleRound.MaskMeans | intl/explodename.c:92-184 | which bits the mask has: in an XPG name those of the parts that are not empty, in a CEN name those of the parts that are there, and the modifier's quirk |
| LocaleMask.Pop | intl/l10nflist.c:155-165 | the field sums count the bits of any 16-bit mask |
| LocaleMask.SubsetsAll | intl/l10nflist.c:333-336 | a mask with k bits dominates exactly 2^k patterns |
| LocaleList.ArgzCount | intl/l10nflist.c:87-98 | the number of directories |
| LocaleList.ArgzNextEntry | intl/l10nflist.c:133-148 | the iteration over the directories |
| LocaleList.ArgzStringify | intl/l10nflist.c:111-122 | the directories separated by colons, everything behind them untouched |
| LocaleList.NameFits | intl/l10nflist.c:190-210 | the size computed for the file name is exactly its length with the NUL |
| LocaleList.BuildName | intl/l10nflist.c:190-267 | the file name is built part by part and fills its allocation exactly |
| LocaleRound.NameRejoins | intl/l10nflist.c:213-267 | the file name built from all pieces of an exploded name is directories, the name itself, a slash and the file, exactly unless it has a revision and no sponsor; then there is a comma too many |
| LocaleRound.NormalizedStands | intl/l10nflist.c:232-241 | a normalised codeset stands where the codeset would |
| LocaleInherit.AllowedBits | intl/l10nflist.c:333-336 | which bit patterns count, bit by bit |
| LocaleInherit.Inherited | intl/l10nflist.c:320-358 | an entry inherits from exactly the files for these patterns, in each directory, and not from itself |
| LocaleInherit.InOrder | intl/l10nflist.c:333-358 | from larger patterns to smaller ones |
| LocaleTree.SuccessorsFit | intl/l10nflist.c:298-358 | the successors and the terminating null never exceed the slots computed from the number of directories and the bits of the mask |
| LocaleTree.InsertSorted | intl/l10nflist.c:271-287 | inserting at the place found keeps the list strictly decreasing |
| LocaleTree.L10nList.Find | intl/l10nflist.c:271-287 | the search finds the entry of a name or the place where it belongs |
| LocaleTree.L10nList.Create | intl/l10nflist.c:295-318 | a new entry at its place, decided as the code says, with the slots computed |
| LocaleTree.L10nList.Make | intl/l10nflist.c:168-361 | one entry per file name; a name that is there is returned and nothing changes; a new one gets exactly the successors its mask and directories demand, in order, each of them the list's own entry of its name; afterwards every entry of the list is complete, but for those still being built; the recursion ends |
| LocaleTree.L10nList.MakeTwice | intl/l10nflist.c:168-361 | asking twice gives the same entry, and the list stays one in which every entry is complete |
| LocaleTree.L10nList.Inherit | intl/l10nflist.c:320-358 | the inheritance list of a new entry leads to the list's own entries, in order, with a null pointer behind them, and no other entry's list is touched |
| CrashGuard.StepKeeps | navit/coffeecatch.c:712-942 | the frame of one step: a thread that moves keeps the invariant if the globals fit what the mutex holder is doing |
| CrashGuard.HandlersUp | navit/coffeecatch.c:712-758 | while any thread is between setup and cleanup, handlers, saved dispositions and thread key are in place |
| CrashGuard.EventKeeps | navit/coffeecatch.c:712-942 | each step of each thread keeps the invariant, sections entered from a COFFEE_CATCH block and crashes in nested sections included |
| CrashGuard.Balanced | navit/coffeecatch.c:712-942 | over every interleaving `initialized` is the number of threads that have a share, and whenever it is 0 and the mutex is free every signal has the disposition it had before the first setup |
| CrashGuard.ShareMeans | navit/coffeecatch.c:1416-1454 | a thread has a share exactly when it is between global setup and global cleanup, or when it has ever left a nested section by a crash |
| CrashGuard.RunSlack | navit/coffeecatch.c:1416-1454 | conservation: over every run `reenter` exceeds the depth of a thread's sections by the sections that its recovered crashes have skipped |
| CrashGuard.NeverReleased | navit/coffeecatch.c:1416-1454 | after a recovered crash in a nested section the counter never returns to 0 and the handlers stay, whatever the threads do |
| CrashGuard.NestedCrashLeaks | navit/coffeecatch.c:1416-1454 | from every initial state a run leads there: all threads outside of all sections, the mutex free, the counter 1 |
| CrashGuard.AssertionsHold | navit/coffeecatch.c:1428-1454 | the assertions in the code hold in every reachable state |
| CrashGuard.HandlerFindsOld | navit/coffeecatch.c:489-500 | a handler runs only while the saved dispositions are allocated, and finds the original one of its signal |
| CrashGuard.FirstCrashRecovers | navit/coffeecatch.c:515-552 | after every run, the first crash with a signal is recovered exactly when the thread is in a section not entered from a COFFEE_CATCH block and has never skipped a section; the jump goes to the outermost COFFEE_CATCH block |
| CrashGuard.SecondCrashEnds | navit/coffeecatch.c:686-700 | after a recovered crash the same signal ends the process |
| CrashGuard.CrashReleases | navit/coffeecatch.c:1444-1454 | leaving the COFFEE_CATCH block after a crash in a section of any depth: cleanup starts exactly when the section was not nested; otherwise the thread is outside with `reenter` one less than the depth |
| Basics.StrcmpEqual | intl/dcigettext.c:783-786 | strcmp is 0 exactly for equal strings |
| Basics.StrcmpFirst | intl/dcigettext.c:796-823 | the first difference gives strcmp its sign |
| Basics.Decimal | intl/plural.c:1366-1376 | the digits of a number evaluate to it |

## Left out

- Failing `malloc`, errno and I/O errors: system calls succeed, and memory is there unless a size overflows.
- CatalogIndex.FindByHash: the conversion of the translation to another character set and byte swapping of the file are not modelled; table and strings are taken as read.
- CatalogLoad.Measure: sums of sizes are unbounded; a file whose sizes add up beyond `size_t` is not modelled.
- CatalogDomain.LoadSysdep: the file's table has more than two slots and the probes of each added id come to an empty one, without which the code does not end.
- CatalogDomain.LoadedFinds: requires that each id of the file can be found and a NUL inside each added id; `CatalogDomain.LoadedKeeps` is about the other tables.
- `get_sysdep_segment_value`: the values of the segments are parameters.
- PluralCatalogs.Shown: the words "nplurals=" and "plural=" do not stand in the header entry before the rule.
- CatalogHash.HashNext: `unsigned long` has 32 bits; with 64 bits the code keeps what is lost here.
- ArcCache.Cache.constructor: `insert` starts as `t1`; in the code it is null until the first lookup that fails, and an insert before that follows a null pointer, while navit/file.c always looks up first.
- ArcCache.Cache.EntryDestroy: the pointer arithmetic from data to header is a map from blocks to entries that `InsertNew` fills; sizes are unbounded where the code has `int`.
- ArcEvents.HeldStays: runs flush only ids that nobody holds; `cache_flush` frees the others as well (`ArcCache.Cache.Flush`). `cache_flush_data`, `cache_stats` and the dump functions are not part of this model.
- ArcEvents.RunSpace: flushes are excluded, and a miss happens only while nothing is held, as the bound needs.
- FileReader.Reader.FileDataRead: reads inside the file, which succeed; after a failed read the code leaves an unfilled entry in the cache (navit/file.c:431-435). The branch without a cache and the mapped file are not modelled.
- FileSplit.File.ReadInto: a file with pieces has pieces of one size and a last one that is no larger, as the comment at navit/file.c:270 assumes.
- File types other than regular files, compression, encryption, sockets and writing in navit/file.c.
- PrintfFormat.FormatOne: the numbers that the host's `snprintf` returns are any function of text, room and "%n" that returns a number below the room only for output that fits; for the others see `PrintfFormat.CutsOff`. The branch that uses `sprintf` is not modelled.
- PrintfFormat.FormatAll: "%n" stores the length without truncating it to the pointer's type; the characters of an argument are the host's business.
- PrintfRun.Vasnprintf: there are as many arguments as the format asks for; the wide-character build is not modelled.
- CommandEval.Comma: attribute names, strings, numbers with a fraction, function calls and assignment end in an outcome of their own, `Unmodelled`, although the code reads many of them without an error; division by zero and results outside int end in `Undefined`.
- CommandTree.EvaluatesTree: says nothing about trees with such a part; both alternatives of "?:", both operands of "&&" and "||" and every member of a list and the operand behind a "." count as parts, since the code evaluates them all.
- LocaleName.ExplodeName: a codeset that is normal already leaves a pointer to freed memory in `normalized_codeset`; the model has no piece there.
- LocaleTree.L10nList.Make: the list is a sequence of nodes in place of the `next` pointers, and `data` stays unset.
- LocaleTree.L10nList.Make: masks have 16 bits; the code uses eight.
- CrashGuard.Balanced: marking a section and saving its jump buffer are one step; old handlers return; a crash where no handler of the protocol is installed ends the process.
- Alternate signal stacks, alarms, backtraces and messages of navit/coffeecatch.c.
- navit/command.c from saved commands on, country tables, `bindtextdom.c`, bookmarks and callbacks: easy upkeep.
