# Models of notm

Dafny models of the self-contained algorithms and protocols of the notm mail
client, each with the properties its code relies on. Loops of the program are
methods proved against recursive specifications, mutable objects are classes
whose contracts give their whole new state, and concurrent or event-driven code
is a step relation whose invariants are proved over every run. `dafny verify
dfyconfig.toml` checks the whole project.

| files | what they model |
|---|---|
| `MailText`, `IdScanners`, `IdGrammar`, `IdStripping`, `IdCanonical`, `IdSequence`, `ThreadingHeader`, `HeaderFolding`, `EncodedWordSyntax` | Message-ID and threading headers: the two comment scanners, the grammar with and without comments, stripping, canonical form, obsolete phrases, folding and unfolding (sections 2.2.3, 3.2.2, 3.6.4 and 4.5.4 of RFC 5322, section 2 of RFC 2047) |
| `IdPrinting`, `IdGaps`, `IdAcceptance`, `IdValues`, `IdCompleteness`, `FieldCompleteness` | the exact language of these headers: syntax trees over listed characters, and that the parser reads the texts they stand for and no others |
| `EncodedWords`, `SubjectReading`, `MimeParameter`, `Utf8` | Subject headers as encoded words and what readers make of them, file names as numbered percent-encoded parameters (RFC 2047, RFC 2231) |
| `Multipart`, `MultipartLines`, `Preflight`, `PartTree`, `AttachmentParts`, `WireFormat` | slicing a multipart body, writing one, the structural limits, why attachments in base64 cannot disturb the slicing, and why a rendered message passes its own wire check (section 5.1.1 of RFC 2046) |
| `QuotedPrintable`, `QuotedPrintableText`, `Base64` | transfer encodings: validation, decoded lengths and decoders (sections 6.7 and 6.8 of RFC 2045, section 4 of RFC 4648) |
| `MimeTree`, `MimeWalk`, `MimeLeaves`, `MimeExtraction` | the parse walk and the extraction walk, which leaves are attachments and what decoding costs |
| `CidScopes`, `CidPaths`, `HtmlBodies`, `HtmlPaths` | which parts the HTML body shows, and which attachments, in which order, each stretch of it may refer to |
| `ComposerCache`, `ComposerCalls` | one submitting side and one worker around two slots, cancellation flags and a wake-up channel of capacity one |
| `DraftAutosave`, `AutosaveEdits`, `AutosaveCalls` | the debounced autosave controller with its urgent queue and flush callbacks, re-entrant calls included |
| `DraftStore`, `DraftMigration`, `DraftResume`, `DraftRestarts` | the named-draft directories: scan, save preflight, legacy migration and its resumption after any number of interruptions, under one count and byte budget |
| `ThreadTagging`, `Maildir`, `MaildirNames` | tagging whole threads against one database revision, and file names that follow tags |
| `LruCache`, `LruRecency`, `OrderedSets` | the stamp-based cache, which refines a recency list across the overflow of its counter |
| `HeaderReader` | the chunked reader of a header preview |

Five findings are stated as theorems rather than assumed away:

- A flush that is already being served returns early after it has stopped the
  debounce timer. `DraftAutosave.StepKeepsTimers` says that an event strands an
  edit if and only if it is such a flush met with an un-ready pending edit, and
  `DraftAutosave.AnEditCanBeStranded` is a run where that happens. Callers that
  follow the generations never cause it (`GenerationsAreWrittenInOrder`).
- A multipart with no parts is read back as one empty part
  (`Multipart.NothingJoined`), so the splitting theorem is about at least one.
- Splitting and joining are inverse if and only if no part holds a delimiter
  line (`Multipart.SplittingUndoesJoining`). Attachments in base64 never do
  (`AttachmentParts.AttachmentsAreRead`). In messages stored with bare line feeds
  a part that ends in a carriage return loses it as well
  (`MultipartLines.SplittingUndoesAnyJoining`).
- A short ASCII subject is written as it is, even if it looks like an encoded
  word, in whatever spelling of charset and encoding, and is then read as
  something else (`SubjectReading.ReadWordIsNoSubject`). For every reader a
  subject reads back if and only if it was encoded or holds no word that reader
  decodes (`SubjectReading.SubjectReadsBack`); and it reads back under all those
  that leave other words alone if and only if it was encoded or holds no word of
  the form of section 2 of RFC 2047, where a charset may also hold dots
  (`SubjectReading.SubjectReadsBackAnywhere`).
- A migration that stops between writing a conflicting draft under a drawn name
  and removing it counts that draft once more when it is started again; stopped
  anywhere else, it resumes (`DraftResume.InterruptedMigrationResumes`). Over any
  number of starts these copies add up, and a start is admitted if and only if
  they still fit (`DraftRestarts.CopiesAccumulate`).

What the models assume: texts are sequences of Unicode scalar values, so byte
offsets become scalar offsets, which agrees with the code on valid UTF-8; counters
are natural numbers where the code saturates, except in the cache, whose overflow
is the point; equal database revisions mean equal contents, and revisions do not
return once left; names drawn for conflicting drafts are new and avoid the legacy
names; a file reads the same for one preflight and the commit that follows it;
there is one submitting side. The flag exchange of a cancellation is a step of its
own although the code holds the slot's lock during it, which only adds
interleavings.

## Model

| member | source | states |
|---|---|---|
| IdScanners.SkipMessageIdCfws | crates/notm-mail/src/rfc5322.rs:474-541 | The scanner used between identifiers stops exactly where `CfwsEnd` says; it has the same specification as the other CFWS scanner, so the two agree on every text and position |
| IdScanners.SkipObsoleteMessageIdCfws | crates/notm-mail/src/rfc5322.rs:920-938 | The scanner used inside identifiers stops exactly where `CfwsEnd` says, errors included |
| IdScanners.SkipObsoleteMessageIdComment | crates/notm-mail/src/rfc5322.rs:705-762 | A nested comment with quoted pairs ends exactly where the recursive definition closes it, or is rejected |
| IdScanners.AtomIsMaximal | crates/notm-mail/src/rfc5322.rs:841-847 | An atom takes all leading atext and stops before the first character that is none |
| IdScanners.ParseIdLeftAtom | crates/notm-mail/src/rfc5322.rs:841-847 | Returns the end of that maximal run, and nothing for an empty one |
| IdScanners.ParseQuotedIdWord | crates/notm-mail/src/rfc5322.rs:974-997 | Finds the closing quote of a quoted word, honouring quoted pairs, or rejects |
| IdScanners.FindMessageIdEnd | crates/notm-mail/src/rfc5322.rs:543-578 | Finds the first `>` outside quotes, literals, escapes and comments, if there is one |
| IdScanners.MessageIdSeparator | crates/notm-mail/src/rfc5322.rs:764-800 | Finds the one `@` outside quotes, literals and comments; none if it is missing or repeated |
| IdScanners.IdEndUnique | crates/notm-mail/src/rfc5322.rs:543-578 | The end of an identifier is unique |
| IdGrammar.CommentIsErased | crates/notm-mail/src/rfc5322.rs:648-703 | Stripping from inside a comment resumes right after the place where the scanner closes it, having kept nothing of it |
| IdGrammar.CfwsIsErased | crates/notm-mail/src/rfc5322.rs:648-703 | Stripping drops exactly the comments and white space that the scanner skips |
| IdGrammar.StripObsoleteMessageIdCfws | crates/notm-mail/src/rfc5322.rs:648-703 | The flag-driven loop computes the stripping automaton, rejections included |
| IdGrammar.ValidObsIdLeftScan | crates/notm-mail/src/rfc5322.rs:940-965 | Accepts exactly words joined by single dots |
| IdGrammar.ParseObsIdLeftWord | crates/notm-mail/src/rfc5322.rs:826-839 | A word with the CFWS around it ends where the recursive definition says |
| IdGrammar.ParseObsDomainAtom | crates/notm-mail/src/rfc5322.rs:878-884 | A domain atom with the CFWS around it ends where the recursive definition says |
| IdGrammar.ValidObsIdLeftWithCfws | crates/notm-mail/src/rfc5322.rs:802-824 | Accepts exactly dot-separated words with CFWS anywhere between them |
| IdGrammar.ValidObsIdRightWithCfws | crates/notm-mail/src/rfc5322.rs:849-876 | Accepts exactly a domain or a domain literal with CFWS around its parts |
| IdGrammar.ValidObsDomainLiteral | crates/notm-mail/src/rfc5322.rs:886-918 | Accepts exactly a non-empty literal, with white space in it and CFWS after it |
| IdGrammar.ValidNoFoldLiteralScan | crates/notm-mail/src/rfc5322.rs:1006-1029 | Accepts exactly a bracketed literal without white space whose quoted pairs are complete |
| IdStripping.StrippingPreservesGrammar | crates/notm-mail/src/rfc5322.rs:648-703 | For all halves the two with-CFWS validators accept: stripping succeeds, and its result is a canonical left half, one `@` and a canonical right half |
| IdCanonical.CanonicalMessageIdCore | crates/notm-mail/src/rfc5322.rs:580-646 | The whole reduction of one identifier, strict or obsolete, equals `Canonical`, every rejection included |
| IdCanonical.ObsoleteChecksSuffice | crates/notm-mail/src/rfc5322.rs:580-646 | In obsolete mode an identifier is accepted if and only if the two validators accept its halves: the checks after stripping never fail |
| IdCanonical.StrictIsObsolete | crates/notm-mail/src/rfc5322.rs:580-646 | What the strict Message-ID mode accepts it returns unchanged, and the obsolete mode returns the same |
| IdCanonical.CanonicalIsFixed | crates/notm-mail/src/rfc5322.rs:580-646 | A canonical identifier is its own canonical form |
| IdCanonical.CanonicalIsIdempotent | crates/notm-mail/src/rfc5322.rs:580-646 | Reducing an accepted identifier again changes nothing, in either mode |
| IdCanonical.CanonicalIsPrintable | crates/notm-mail/src/rfc5322.rs:633-646 | A canonical identifier is ASCII header text, so the conversion back to a string cannot fail |
| IdCanonical.CanonicalHalvesSeparate | crates/notm-mail/src/rfc5322.rs:764-800 | Canonical halves joined by `@` have their separator there and hide every `>` |
| IdSequence.ParseObsoleteThreadingPhrase | crates/notm-mail/src/rfc5322.rs:265-286 | A phrase before an identifier ends where the recursive definition says |
| IdSequence.ParseObsoleteThreadingWord | crates/notm-mail/src/rfc5322.rs:288-306 | A word of a phrase: encoded word, quoted word or atom, each ended as defined |
| IdSequence.EncodedWordIsExact | crates/notm-mail/src/rfc5322.rs:308-425 | On every value and position the scan of an encoded word succeeds with an end if and only if the text up to there is `=?charset?encoding?text?=` with tokens and graphic text, at most 75 characters, between white space or the ends of the value |
| IdSequence.ParseObsoleteThreadingQuotedWord | crates/notm-mail/src/rfc5322.rs:445-472 | A quoted word that may hold non-ASCII text ends at its closing quote or is rejected |
| IdSequence.ParseObsoleteThreadingAtom | crates/notm-mail/src/rfc5322.rs:427-443 | An atom that may hold non-ASCII text ends where it must, and is not empty |
| IdSequence.ParseMessageIdSequence | crates/notm-mail/src/rfc5322.rs:227-263 | The loop over one value returns exactly the identifiers of the recursive parse, rejections included |
| IdSequence.MessageIdTokens | crates/notm-mail/src/rfc5322.rs:213-225 | The loop over all values of a field concatenates their parses, or rejects |
| IdSequence.ParsedIdsAreFixed | crates/notm-mail/src/rfc5322.rs:227-263 | Every identifier a parse yields is a fixed point of its mode |
| IdSequence.TokensAreFixed | crates/notm-mail/src/rfc5322.rs:213-225 | So is every identifier of a whole field |
| IdSequence.StrictParseIsObsoleteParse | crates/notm-mail/src/rfc5322.rs:227-263 | A value the strict syntax accepts parses to the same list as a threading value |
| IdSequence.StrictTokensAreObsoleteTokens | crates/notm-mail/src/rfc5322.rs:213-225 | The same for all values of a field |
| IdGaps.AtextIsListed | crates/notm-mail/src/rfc5322.rs:1039-1041 | The characters of an atom are letters, digits and the listed punctuation, and no others |
| IdGaps.GapIsSkipped | crates/notm-mail/src/rfc5322.rs:474-541 | Blanks and comments of any nesting, with quoted pairs and non-ASCII text, are passed over wherever they stand |
| IdAcceptance.WrittenIdIsAccepted | crates/notm-mail/src/rfc5322.rs:580-646 | Every identifier the grammar writes over listed characters, with comments and blanks between its words, quoted words and domain literals, is accepted in a threading header and reduced to its words |
| IdAcceptance.CurrentIdIsAccepted | crates/notm-mail/src/rfc5322.rs:580-646 | Every such identifier without what is obsolete is accepted in both modes and returned unchanged |
| IdCompleteness.AcceptanceIsExact | crates/notm-mail/src/rfc5322.rs:580-646 | In a threading header a text is accepted, and as this canonical form, if and only if the grammar writes it and its words are that form: no other comment, quoting, character or order of parts is let through |
| IdCompleteness.StrictAcceptanceIsExact | crates/notm-mail/src/rfc5322.rs:580-646 | As a Message-ID a text is accepted, unchanged, if and only if the grammar without what is obsolete writes it |
| IdValues.WrittenValueIsRead | crates/notm-mail/src/rfc5322.rs:227-263 | From any position of a value: every sequence of identifiers, blanks, comments and phrases the grammar writes, encoded-words between blanks included, is read, in either mode, as exactly the bare identifiers in it |
| IdValues.WrittenFieldIsRead | crates/notm-mail/src/rfc5322.rs:213-225 | The same for all values of a field, whose text passes the header check |
| IdValues.PlainIdIsRead | crates/notm-mail/src/rfc5322.rs:213-263 | For dot-joined runs of listed characters the identifier is read as itself in both modes, alone and before a comment, and in a threading header after any phrase, dots included |
| FieldCompleteness.ReadingIsExact | crates/notm-mail/src/rfc5322.rs:213-472 | The exact language of the fields: values are read as these identifiers, in either mode, if and only if each is a sequence of identifiers, blanks, comments and, for threading headers, phrases of runs, quoted words, dots and encoded-words between blanks, and the bare identifiers in them are these |
| ThreadingHeader.MessageBuffer.WriteTokenHeader | crates/notm-mail/src/rfc5322.rs:1059-1085 | Succeeds exactly when every token is header text below the line limit; then it appends the folded header, and never takes back a byte |
| ThreadingHeader.UnfoldRawStructuredHeader | crates/notm-mail/src/mime.rs:312-353 | Removes exactly the line breaks that precede white space and rejects every other control character |
| ThreadingHeader.UnfoldingUndoesFolding | crates/notm-mail/src/mime.rs:312-353 | Unfolding a folded header gives its tokens, each after one space |
| HeaderFolding.UnfoldingIsExact | crates/notm-mail/src/mime.rs:312-353 | A raw field unfolds to this text if and only if it is the text with CRLF or LF put in before white space, and holds no other control character of ASCII but tabs |
| ThreadingHeader.RoundTrip | crates/notm-mail/src/rfc5322.rs:213-263 | For any values of a field that parse: folding the identifiers, unfolding and parsing again yields the same list; the write can only fail for an identifier of 998 characters or more |
| ThreadingHeader.ParsingIsProjection | crates/notm-mail/src/rfc5322.rs:213-263 | Parsing is a projection: what was read, joined by spaces or value by value, reads as itself |
| HeaderFolding.FoldingIsGreedy | crates/notm-mail/src/rfc5322.rs:1059-1085 | A folded header keeps its tokens in order on lines of at most 78 bytes, a single longer token apart, and breaks only where the next token would not fit |
| Multipart.FindLinePrefix | crates/notm-mail/src/mime.rs:1108-1119 | Finds the first delimiter line at or after a position, and none only if there is none |
| Multipart.ValidBoundaryLineSuffix | crates/notm-mail/src/mime.rs:1121-1131 | Accepts exactly an optional `--`, linear white space and a line end or the end of the text |
| Multipart.SlicesAreShorter | crates/notm-mail/src/mime.rs:1025-1082 | On every input each slice is shorter than the text it is cut from, so the recursion ends |
| Multipart.SplittingUndoesJoining | crates/notm-mail/src/mime.rs:1025-1131 | The parts sliced from joined parts are those parts if and only if none of them holds a delimiter line |
| Multipart.NothingJoined | crates/notm-mail/src/mime.rs:1025-1082 | A multipart that is only its closing delimiter is read as one empty part, not as none |
| Multipart.DelimiterInPart | crates/notm-mail/src/mime.rs:1108-1131 | Seen from the whole body, the delimiter lines inside a part are exactly the part's own |
| MultipartLines.TailIsExact | crates/notm-mail/src/mime.rs:1121-1131 | The scan accepts exactly what is an optional `--`, blanks, and then nothing, LF or CRLF, put together by concatenation |
| MultipartLines.DelimiterLineIs | crates/notm-mail/src/mime.rs:1108-1131 | A delimiter line is exactly the delimiter, at the start or after a line feed, followed by such a tail |
| MultipartLines.SplittingUndoesAnyJoining | crates/notm-mail/src/mime.rs:1025-1131 | For parts joined with any mixture of CRLF and LF, any blanks after the delimiters and any text after the closing one: the slices are the parts if and only if no part holds a delimiter line and none that ends in a carriage return stands before a bare LF |
| Preflight.NextCut | crates/notm-mail/src/mime.rs:1042-1080 | One turn of the slicing loop: the next part and where to go on, on every input within bounds |
| Preflight.PreflightPart | crates/notm-mail/src/mime.rs:1025-1082 | Succeeds if and only if the tree is readable and within the depth and part limits, and then has counted exactly its nodes |
| Preflight.OneChildSpoils | crates/notm-mail/src/mime.rs:1025-1082 | A child that is too deep, unreadable or one too many makes the whole message rejected |
| Preflight.BodyWriter.WriteBoundary | crates/notm-mail/src/rfc5322.rs:1355-1362 | Appends the delimiter line, closing or not |
| Preflight.BodyWriter.EnsureCrlfTerminated | crates/notm-mail/src/rfc5322.rs:1364-1368 | Adds a line end unless there is one |
| Preflight.BodyWriter.WriteParts | crates/notm-mail/src/rfc5322.rs:1146-1164 | Writes delimiter lines and CRLF-terminated parts that are exactly the joined text of the slicing theorem |
| Preflight.WrittenPartsAreRead | crates/notm-mail/src/mime.rs:1025-1131 | The children the preflight walks of a written multipart are the written parts if and only if none holds a delimiter line |
| MultipartLines.AnyBodyIsWalked | crates/notm-mail/src/mime.rs:1025-1131 | The same for the children the preflight walks, behind a preamble of any length |
| PartTree.DepthIsExact | crates/notm-mail/src/mime.rs:1025-1082 | The depth limit is kept if and only if every way down the tree is no longer than it and ends at a part whose headers can be read |
| PartTree.CountIsExact | crates/notm-mail/src/mime.rs:1025-1082 | The number of parts is that of the ways down, each counted once |
| AttachmentParts.AttachmentsHoldNoDelimiter | crates/notm-mail/src/rfc5322.rs:1172-1225 | An attachment carried in base64, whatever its bytes, holds no delimiter line of any boundary |
| AttachmentParts.AttachmentsAreRead | crates/notm-mail/src/rfc5322.rs:99-119 | A mixed body of a text part and attachments in base64 is sliced back into them if and only if the text part holds no delimiter line |
| WireFormat.ValidateWire | crates/notm-mail/src/rfc5322.rs:1394-1420 | The scan accepts exactly texts made of lines of at most 998 bytes, each ended by CRLF, with no other carriage return or line feed |
| WireFormat.WriteParameters | crates/notm-mail/src/rfc5322.rs:1252-1275 | Writes the parameter lines, each after one space, if every one fits |
| WireFormat.TokenHeaderIsWire | crates/notm-mail/src/rfc5322.rs:1059-1085 | Whatever the token writer appends when it succeeds is such lines |
| WireFormat.SubjectIsWire | crates/notm-mail/src/rfc5322.rs:125-135 | So is the header of every subject that can be written |
| WireFormat.AttachmentIsWire | crates/notm-mail/src/rfc5322.rs:1172-1225 | So is every attachment in base64, whatever its bytes and its file name |
| WireFormat.MessageIsWire | crates/notm-mail/src/rfc5322.rs:44-123 | So is a whole mixed message whose headers the token writer wrote and whose text part is lines: the final check cannot fail on a subject, an identifier, a file name or an attachment |
| WireFormat.MessageIsRead | crates/notm-mail/src/mime.rs:1025-1131 | The parts walked of that message are the written ones if and only if the text part holds no delimiter line |
| QuotedPrintable.ValidateQuotedPrintable | crates/notm-mail/src/mime.rs:1199-1285 | The escape-driven scan accepts exactly the bodies whose bytes and escapes are well-formed |
| QuotedPrintable.LineContentLen | crates/notm-mail/src/mime.rs:939-961 | The decoded length of one line's content, or none for a broken escape |
| QuotedPrintable.QuotedPrintableDecodedLen | crates/notm-mail/src/mime.rs:919-978 | The line-driven loop computes the decoded length, soft and hard breaks included |
| QuotedPrintable.LengthIsExact | crates/notm-mail/src/mime.rs:919-978 | From any position of a well-formed body: the length function is defined and equals the length of what the section 6.7 decoder of RFC 2045 yields |
| QuotedPrintable.ValidBodiesHaveLengths | crates/notm-mail/src/mime.rs:919-978 | Whatever the validator accepts has a length, and it is exact |
| QuotedPrintable.LengthIsDefined | crates/notm-mail/src/mime.rs:919-978 | A body has a length if and only if every byte is a line end, printable, part of a hexadecimal escape or a soft break, or trails on its line |
| QuotedPrintable.LengthWithoutValidity | crates/notm-mail/src/mime.rs:919-978 | A body that does not validate can have a length: blanks after a soft break |
| QuotedPrintableText.ValidityIsExact | crates/notm-mail/src/mime.rs:1199-1285 | A body is valid if and only if it is a concatenation of printable bytes, line bytes, hexadecimal escapes of either case and soft breaks before CRLF or LF |
| QuotedPrintableText.WrittenBodyIsAccepted | crates/notm-mail/src/mime.rs:919-978 | Every body written from literals, escapes, soft breaks and line ends is valid, decodes to what they stand for, and has that length |
| Base64.RenderBase64 | crates/notm-mail/src/rfc5322.rs:1215-1224 | Writes the encoding in lines of at most 76 characters, each ended by CRLF |
| Base64.LinesAreFull | crates/notm-mail/src/rfc5322.rs:1215-1224 | Those lines hold the encoding in order, and every line but the last holds 76 characters |
| Base64.SpaceIsPassedOver | crates/notm-mail/src/mime.rs:980-990 | Wherever it stands, a character is passed over if and only if it is a space, tab, line feed, form feed or carriage return |
| Base64.Base64DecodedLen | crates/notm-mail/src/mime.rs:980-1010 | The scan over the raw text computes the length function, white space and padding rules included |
| Base64.LengthIsExact | crates/notm-mail/src/mime.rs:980-1010 | For any text without white space: the length function accepts it if and only if the decoder does, and counts its bytes |
| Base64.DecodingUndoesEncoding | crates/notm-mail/src/rfc5322.rs:1215-1224 | Decoding undoes encoding |
| Base64.WrittenLengthIsExact | crates/notm-mail/src/rfc5322.rs:1215-1224 | For any bytes: the length of what the renderer writes is their count, and it decodes to them |
| Base64.EncodingUndoesDecoding | crates/notm-mail/src/mime.rs:980-1010 | Encoding what was decoded gives the text back if and only if no bit that stands for no byte was set |
| MimeWalk.ParseState.ReserveDecoded | crates/notm-mail/src/mime.rs:498-521 | Admits a part exactly within the per-part and total limits, and charges it only then |
| MimeWalk.ParseState.WalkPart | crates/notm-mail/src/mime.rs:523-670 | Succeeds if and only if all charges of the tree fit; then it has charged them, listed exactly the attachment leaves with consecutive indexes, and selected the specified HTML body |
| MimeWalk.ParseState.WalkLeaf | crates/notm-mail/src/mime.rs:523-640 | The same for one leaf, attachment or body |
| MimeWalk.SelectMultipartBody | crates/notm-mail/src/mime.rs:672-726 | Selecting from the walked children gives the specified body for alternative, related and other containers |
| MimeWalk.SiblingRanges | crates/notm-mail/src/mime.rs:700-726 | The index ranges of the children beside the related root are the attachments of exactly those children |
| CidScopes.HtmlDestination.AppendHtmlBody | crates/notm-mail/src/mime.rs:430-484 | Appending in place equals the functional append: shifted scopes, separator and default scope |
| CidScopes.AppendedIsSound | crates/notm-mail/src/mime.rs:430-484 | Appending keeps the scopes tiling the text, duplicate-free and allocated |
| CidScopes.RelatedAppendsSiblings | crates/notm-mail/src/mime.rs:672-726 | Of a related container, every scope of the root gains exactly the attachment indexes of its siblings, after its own |
| CidScopes.NearestContainerFirst | crates/notm-mail/src/mime.rs:672-726 | One level: a related container shows what its root child shows, and each scope lists the indexes it had there before those of the container's other attachments |
| CidPaths.ScopeFollowsPath | crates/notm-mail/src/mime.rs:388-473 | For every tree and every scope of its body there is a path to the HTML leaf whose text the scope shows; the scope lists exactly the attachments beside the path in the related containers on it, from the innermost container to the outermost |
| CidPaths.AlongRunsOutward | crates/notm-mail/src/mime.rs:672-726 | Such a list runs outward: level by level a prefix of it lies inside the child on the path and the rest outside |
| CidPaths.NearestFirst | crates/notm-mail/src/mime.rs:672-726 | So for every tree, through mixed, alternative and signed containers, each scope lists the attachments of nearer containers before those of outer ones |
| CidScopes.SelectedHtmlIsSound | crates/notm-mail/src/mime.rs:388-473 | For every tree the scopes of the selected body tile its text, and each list is duplicate-free and holds only indexes allocated below it |
| HtmlBodies.AlternativeShowsTheLast | crates/notm-mail/src/mime.rs:403-415 | An alternative shows the last child with HTML: its body and its scopes, whatever the others hold |
| HtmlBodies.AlternativeShowsAny | crates/notm-mail/src/mime.rs:676-687 | An alternative has HTML if and only if one of its children has |
| HtmlBodies.OthersShowAll | crates/notm-mail/src/mime.rs:430-484 | Any other joining container shows every child whose HTML is not blank, in their order, with an empty line between them, and nothing else |
| HtmlBodies.RelatedShowsItsRoot | crates/notm-mail/src/mime.rs:756-770 | A related container shows the first child its start parameter names, or else its first child |
| HtmlBodies.SignedShowsItsFirst | crates/notm-mail/src/mime.rs:716-716 | A signed container shows what it signs |
| HtmlBodies.SealedShowsNothing | crates/notm-mail/src/mime.rs:552-562 | An encrypted container, or a part disposed or named as an attachment, shows nothing |
| HtmlBodies.LeafShows | crates/notm-mail/src/mime.rs:611-670 | A leaf shows a text if and only if it is readable HTML in place and no part of cryptography |
| HtmlPaths.ChosenLeavesAreShown | crates/notm-mail/src/mime.rs:388-473 | For every tree, each way down that every container chooses, to HTML that is not blank, ends in a text the body shows, under a scope with exactly the attachments beside that way |
| HtmlPaths.SiblingsAreTheOthers | crates/notm-mail/src/mime.rs:700-714 | Those attachments are all that the related container holds outside its root |
| MimeLeaves.LeafIsNumbered | crates/notm-mail/src/mime.rs:785-804 | A leaf is an attachment if and only if it is disposed or named as one, a calendar, or neither text nor part of cryptography |
| MimeLeaves.ChildrenAreNumbered | crates/notm-mail/src/mime.rs:728-754 | A container numbers the attachments of its children in their order; a name makes a child none exactly for alternatives and along the way to a body |
| MimeLeaves.LeafCosts | crates/notm-mail/src/mime.rs:563-670 | What parsing charges for a leaf: an attachment whole, any other text with a valid transfer encoding, nothing for cryptography |
| MimeLeaves.ContainerCosts | crates/notm-mail/src/mime.rs:537-562 | A container is charged what its children are charged together |
| MimeExtraction.Extraction.CollectAttachmentData | crates/notm-mail/src/mime.rs:1430-1517 | Succeeds if and only if the charges of the selected leaves fit, and then reports exactly them, decoded or failed |
| MimeExtraction.Extraction.CollectLeaf | crates/notm-mail/src/mime.rs:1430-1517 | The same for one leaf |
| MimeExtraction.ParsedAreTheLeaves | crates/notm-mail/src/mime.rs:523-610 | The parse lists the attachment leaves in order under consecutive numbers, each by its own name or the one made up for it, with its type, content id, whether it decodes and its size |
| MimeExtraction.ExtractedAreTheLeaves | crates/notm-mail/src/mime.rs:1430-1517 | An extraction holds exactly the chosen leaves that decode: each under its number, name and type and with its bytes |
| MimeExtraction.FailuresAreTheLeaves | crates/notm-mail/src/mime.rs:1430-1517 | And its failures are exactly the chosen leaves that do not decode |
| MimeExtraction.ExtractionMatchesParse | crates/notm-mail/src/mime.rs:1430-1517 | The extraction walk gives the same indexes, filenames and types to the same leaves, each in exactly one of its lists |
| MimeExtraction.SelectionIsFilter | crates/notm-mail/src/mime.rs:1389-1414 | Extracting a selected index set is exactly the filter of the full report |
| MimeExtraction.ExtractionCostsLess | crates/notm-mail/src/mime.rs:1430-1517 | Extraction never charges more than parsing, in total or for a part |
| MimeExtraction.ParsedMessagesExtract | crates/notm-mail/src/mime.rs:1430-1517 | Whatever parses within the limits also extracts, in full and for any selection |
| ComposerCache.EveryRunIsSafe | crates/notm-ui/src/attachment_io.rs:706-783 | In every interleaving: no wake-up is lost, every pending or running request but the newest is cancelled, the active slot names a live one, and the counters balance |
| ComposerCache.EveryRunKeepsInvariant | crates/notm-ui/src/attachment_io.rs:706-783 | The inductive invariant holds after every run, with a worker or without |
| ComposerCache.SubmitterKeepsInvariant | crates/notm-ui/src/attachment_io.rs:706-783 | Each step of submit, cancel and the final drop keeps the invariant |
| ComposerCache.WorkerKeepsInvariant | crates/notm-ui/src/attachment_io.rs:1098-1126 | Each step of the worker keeps the invariant |
| ComposerCache.EveryRunKeepsAccount | crates/notm-ui/src/attachment_io.rs:706-783 | Every request is in somebody's hands or has met exactly one fate; a displaced one was cancelled before; only a service without a worker refuses |
| ComposerCache.FatesAreFinal | crates/notm-ui/src/attachment_io.rs:706-783 | However a run goes on, a request is never answered, refused or displaced a second time |
| ComposerCache.RestLeavesNothingBehind | crates/notm-ui/src/attachment_io.rs:642-660 | A service that can go no further has empty slots and channel; every request has met its fate, and one never cancelled was answered; after the drop the worker is gone |
| ComposerCache.OnlyRestIsStuck | crates/notm-ui/src/attachment_io.rs:1098-1126 | Between calls nothing is enabled if and only if both sides are idle or the service is over: no deadlock |
| ComposerCache.EveryScheduleEnds | crates/notm-ui/src/attachment_io.rs:1098-1126 | Under any scheduler the steps between two calls are bounded |
| ComposerCalls.CancelEmptiesTheSlots | crates/notm-ui/src/attachment_io.rs:771-783 | Whenever a cancel returns, whatever the worker did meanwhile, both slots are empty and anything still running is cancelled |
| ComposerCalls.CancelledIsNeverAnswered | crates/notm-ui/src/attachment_io.rs:771-783 | A request that waits in the slot when a cancel begins, and is not taken by the worker before, is displaced and never answered, however the run goes on |
| ComposerCalls.SubmitPlacesTheRequest | crates/notm-ui/src/attachment_io.rs:706-770 | Whenever a submission returns, its request is the newest: it waits, is with the worker or was answered; without a worker it was refused |
| ComposerCalls.DropEmptiesTheSlots | crates/notm-ui/src/attachment_io.rs:640-660 | When the service is dropped both slots are empty, anything still running is cancelled, and no call can follow |
| DraftAutosave.AutosaveState.Schedule | crates/notm-ui/src/draft_autosave.rs:116-132 | Replaces the pending edit, arms the timer and numbers the request |
| DraftAutosave.AutosaveState.QueueFlush | crates/notm-ui/src/draft_autosave.rs:186-224 | The three ways a flush is served: by a write on its way, by the pending edit, or by a new urgent request |
| DraftAutosave.AutosaveState.FindInFlight | crates/notm-ui/src/draft_autosave.rs:188-196 | Finds the first active or urgent request for the same edit |
| DraftAutosave.AutosaveState.Flush | crates/notm-ui/src/draft_autosave.rs:134-145 | Stops the timer, queues, registers the waiter and starts a write if none is active |
| DraftAutosave.AutosaveState.FireTimer | crates/notm-ui/src/draft_autosave.rs:120-131 | Makes the pending edit ready and starts a write if none is active |
| DraftAutosave.AutosaveState.StartPendingWrite | crates/notm-ui/src/draft_autosave.rs:240-262 | Starts the first urgent request, else a ready pending one, else nothing |
| DraftAutosave.AutosaveState.FinishWrite | crates/notm-ui/src/draft_autosave.rs:318-359 | Splits off exactly the waiters of the ended request; a stale identifier changes nothing |
| DraftAutosave.StepKeepsTimers | crates/notm-ui/src/draft_autosave.rs:116-145 | After any event runnable work is waiting only for a write or a finish under way, and an edit is stranded by an event if and only if it is a flush that returns early past an un-ready edit |
| DraftAutosave.AnEditCanBeStranded | crates/notm-ui/src/draft_autosave.rs:186-196 | A concrete run in which that early return leaves an edit unwritten for ever |
| DraftAutosave.CarefulRunsStrandNothing | crates/notm-ui/src/draft_autosave.rs:116-145 | A run without such a flush strands no edit |
| DraftAutosave.FlushesAreAnswered | crates/notm-ui/src/draft_autosave.rs:134-145 | In every run, re-entrant calls included: a callback is called at most once, with the outcome of an ended write of exactly its generation and action; until then its request is active or urgent, or the call is due |
| DraftAutosave.RestIsComplete | crates/notm-ui/src/draft_autosave.rs:318-359 | A careful run at rest has no request and no waiter left and has called every callback once |
| AutosaveCalls.CallbacksKeepOrder | crates/notm-ui/src/draft_autosave.rs:318-359 | In every run, re-entrant calls included, the callbacks that one write answers are called in the order of their flushes |
| DraftAutosave.GenerationsAreWrittenInOrder | crates/notm-ui/src/draft_autosave.rs:173-224 | When callers follow the generations, nothing is stranded, written generations never decrease, and at rest the last write has the newest requested one |
| DraftAutosave.LatestMeansNothingWaits | crates/notm-ui/src/draft_autosave.rs:330-345 | Then a write is reported as the latest if and only if nothing is waiting behind it |
| DraftAutosave.TurnsAreWork | crates/notm-ui/src/draft_autosave.rs:240-359 | Every turn of the main loop comes closer to rest |
| AutosaveEdits.NoEditIsLost | crates/notm-ui/src/draft_autosave.rs:173-224 | In every run, whatever the order of the events: an edit once scheduled or flushed is written, urgent or pending, unless a later edit was scheduled or one of no lower generation was flushed after it |
| AutosaveEdits.NoFlushIsLost | crates/notm-ui/src/draft_autosave.rs:186-224 | In every run a flushed edit is written or urgent from its flush on, or it waits as the pending edit |
| AutosaveEdits.EveryEditIsWritten | crates/notm-ui/src/draft_autosave.rs:173-262 | So at rest after a careful run every edit was written or so replaced |
| AutosaveEdits.WritesAreRequested | crates/notm-ui/src/draft_autosave.rs:240-262 | Nothing is written that was not scheduled or flushed before |
| DraftStore.ListingIsWhole | crates/notm-ui/src/draft_io.rs:622-643 | Count and bytes do not depend on the order in which a directory is listed |
| DraftStore.ChargeNamedDraftBytes | crates/notm-ui/src/draft_io.rs:701-712 | Adds to the running total exactly within the budget |
| DraftStore.ScanNamedDrafts | crates/notm-ui/src/draft_io.rs:457-519 | Succeeds if and only if count and bytes are within the limits, and then returns the kept drafts |
| DraftStore.KeptAreTheDrafts | crates/notm-ui/src/draft_io.rs:483-519 | The scan returns every well-formed draft, each name and contents once, and nothing else |
| DraftStore.ScanIsExact | crates/notm-ui/src/draft_io.rs:457-519 | In terms of the two directories: the scan succeeds if and only if at most 256 files and 32 MiB of regular ones are listed, and shows exactly the regular files of at most 2 MiB that parse |
| DraftStore.ReadBounded | crates/notm-ui/src/draft_io.rs:714-729 | Reads a current draft whole within limit and budget, or stops |
| DraftStore.EnsureNamedDraftSaveFits | crates/notm-ui/src/draft_io.rs:537-620 | The preflight admits a save if and only if `SaveFits`: readable current drafts, room in count and bytes, a replacement that is there |
| DraftStore.SavedDraftsScan | crates/notm-ui/src/draft_io.rs:537-620 | After an admitted save no scan of the two directories fails its limits |
| DraftStore.AdmittedSavesFit | crates/notm-ui/src/draft_io.rs:537-620 | A save is admitted if and only if the current drafts are readable, a replaced one is a regular file, and both directories fit the limits before the save and after it, the bytes of a replaced draft given back |
| DraftMigration.ReadBoundedForMigration | crates/notm-ui/src/draft_io.rs:665-681 | A legacy draft is read whole, rejected with or without being charged, or over budget |
| DraftMigration.PlanMigration | crates/notm-ui/src/draft_io.rs:294-430 | The preflight loops compute the plan or the same kind of rejection |
| DraftMigration.AdmissionIsExact | crates/notm-ui/src/draft_io.rs:294-430 | A migration is admitted if and only if current drafts are readable and the combined count and bytes, duplicates counted once, stay within the limits; only an unreadable current draft is recoverable |
| DraftMigration.PlanIsPlanned | crates/notm-ui/src/draft_io.rs:360-393 | Every planned destination is new and used once, every source is taken once, and a move without destination has its copy in place |
| DraftMigration.PlanMovesAll | crates/notm-ui/src/draft_io.rs:324-393 | A legacy entry is moved if and only if it can be read whole and parses |
| DraftMigration.NoDraftIsLost | crates/notm-ui/src/draft_io.rs:436-446 | Wherever the commit loop stops, every legacy draft is in its place or has a copy in the current directory, and no current draft has changed |
| DraftMigration.MigratedDraftsScan | crates/notm-ui/src/draft_io.rs:294-519 | A completed migration leaves exactly the immovable entries in the legacy directory, and no following scan fails its limits |
| DraftResume.InterruptedMigrationResumes | crates/notm-ui/src/draft_io.rs:294-447 | After a migration that stopped anywhere in its commit loop the next plan projects the same count and bytes if and only if no draft was written under a drawn name without being removed, and then is admitted again; such a draft is counted once more, and the plan is admitted exactly if that fits |
| DraftRestarts.CopiesAccumulate | crates/notm-ui/src/draft_io.rs:294-447 | After any number of starts, wherever each stopped, the projected store is that of the first start and the copies left on the way, and the next start is admitted if and only if that fits |
| DraftRestarts.CopiesAreFew | crates/notm-ui/src/draft_io.rs:294-447 | At most one copy more than the shared count has room for can pile up, and one draft more than the bytes have |
| DraftResume.AddedIsTheRest | crates/notm-ui/src/draft_io.rs:324-393 | What a migration adds is the legacy directory without the drafts that the current one has under the same name |
| DraftMigration.DraftDirectories.Commit | crates/notm-ui/src/draft_io.rs:436-446 | Writes and removes in order, stopping at the first failure, with the state after every prefix |
| DraftMigration.DraftDirectories.Migrate | crates/notm-ui/src/draft_io.rs:294-447 | A rejected preflight changes neither directory; otherwise no draft is lost, and without failures the whole plan is carried out |
| ThreadTagging.Database.SearchMessageIds | crates/notm-notmuch/src/database.rs:1098-1129 | The skipping loop returns exactly one page of the identifiers |
| ThreadTagging.Database.ThreadMessageIdsPage | crates/notm-notmuch/src/database.rs:502-552 | A page is the exact slice and count at the expected revision, or an error with its reason, whatever other writers do |
| ThreadTagging.Database.AddPage | crates/notm-notmuch/src/database.rs:583-592 | Adds a page unless it repeats an identifier |
| ThreadTagging.Database.ThreadMessageIdsBounded | crates/notm-notmuch/src/database.rs:554-616 | A result is exactly the thread's messages at the expected revision, duplicate-free and within the maximum; each error has its reason |
| ThreadTagging.Database.ResolveThreads | crates/notm-notmuch/src/database.rs:922-970 | All threads are classified and their messages collected at one revision, or the resolution stops |
| ThreadTagging.Database.ApplyTagsToThreads | crates/notm-notmuch/src/database.rs:911-987 | Either an error with nothing handed over for tagging, which needs a reason; or exactly the messages of the matched threads at one unchanged revision |
| ThreadTagging.UniqueIsTheSet | crates/notm-notmuch/src/database.rs:918-923 | The requested threads are kept once each |
| ThreadTagging.TargetsAreTheUnion | crates/notm-notmuch/src/database.rs:941-953 | The targets are exactly the union of the messages of the matched threads |
| ThreadTagging.ReportIsPartition | crates/notm-notmuch/src/database.rs:926-970 | Every distinct requested thread is in exactly one of matched, missing and failed |
| Maildir.ExpectedMaildirFilename | crates/notm-notmuch/src/database.rs:1844-1903 | The byte-level rewriting equals the specified name, malformed names unchanged |
| Maildir.FixFlags | crates/notm-notmuch/src/database.rs:1870-1888 | Setting and clearing the five letters gives the specified flag set, and notes a change exactly when there is one |
| Maildir.ReadFlags | crates/notm-notmuch/src/database.rs:1861-1873 | Accepts exactly strictly increasing ASCII flags |
| Maildir.ExpectedFollowsTags | crates/notm-notmuch/src/database.rs:1844-1903 | A well-formed name keeps its directory, base and other flags, lies in `cur` or is untouched, and has strictly increasing flags with D, F, P, R and S exactly as the tags say, read from the last `:2,` |
| Maildir.ExpectedIsIdempotent | crates/notm-notmuch/src/database.rs:1844-1903 | For fixed tags renaming again changes nothing |
| MaildirNames.FlaggedFileFollowsTags | crates/notm-notmuch/src/database.rs:1844-1903 | A file with flags comes to lie in `cur` under its base name, with D, F, P, R set for their tags, S for what is not unread, and all other flags kept |
| MaildirNames.PlainFileFollowsTags | crates/notm-notmuch/src/database.rs:1844-1903 | A file without flags likewise, except that one in `new` keeps its name as long as no letter is due |
| MaildirNames.OtherNamesStay | crates/notm-notmuch/src/database.rs:1844-1855 | A name without a directory, or in any directory but `cur` and `new`, stays as it is |
| MaildirNames.MalformedFlagsStay | crates/notm-notmuch/src/database.rs:1861-1872 | So does a name whose flags are repeated, out of order or not ASCII |
| LruCache.BoundedLruCache.Get | crates/notm-ui/src/cache.rs:53-67 | Answers as the recency list does and moves a hit to its end; a miss takes no stamp |
| LruCache.BoundedLruCache.Insert | crates/notm-ui/src/cache.rs:69-88 | Answers and becomes what the recency list does, dropping only the oldest entry of a full cache |
| LruCache.BoundedLruCache.Clear | crates/notm-ui/src/cache.rs:90-93 | Empties the list and resets the counter |
| LruCache.BoundedLruCache.EvictLru | crates/notm-ui/src/cache.rs:95-103 | The least stamp belongs to one entry, the oldest, and exactly that is removed |
| LruCache.BoundedLruCache.NextRecency | crates/notm-ui/src/cache.rs:105-118 | Issues a stamp above all others, also at the end of u64, without disturbing the order |
| LruCache.BoundedLruCache.RebaseRecency | crates/notm-ui/src/cache.rs:120-141 | Keeps the order and leaves room to advance |
| LruCache.RankingKeepsOrder | crates/notm-ui/src/cache.rs:120-141 | Replacing stamps by their ranks keeps the recency order, and the greatest rank is the number of entries |
| LruCache.LeastIsFirst | crates/notm-ui/src/cache.rs:95-103 | The head of the list has the least stamp, and no other entry has it |
| LruCache.Replay | crates/notm-ui/src/cache.rs:53-93 | Over any sequence of lookups, insertions and clearings, from any valid state, the answers are those of the recency list |
| LruCache.InsertForgetsTheOldest | crates/notm-ui/src/cache.rs:69-88 | An insertion is seen and forgets nothing but the oldest entry of a full list |
| LruCache.GetForgetsNothing | crates/notm-ui/src/cache.rs:53-67 | A lookup changes no answer |
| LruRecency.RecentIsKept | crates/notm-ui/src/cache.rs:53-103 | An entry just looked up or inserted is found as long as fewer other keys are used than the cache holds, and no longer once that many others are inserted |
| HeaderReader.EndIsFirst | crates/notm-mail/src/message_io.rs:145-153 | The end found is the first blank line of either kind |
| HeaderReader.EndIsStable | crates/notm-mail/src/message_io.rs:145-153 | Bytes that arrive later do not change an end already found, although the two kinds differ in length |
| HeaderReader.HeaderIsExact | crates/notm-mail/src/message_io.rs:74-115 | The header is what stands before the first blank line complete within the limit; without one the limit marks it truncated exactly if readable bytes go beyond, and otherwise a failing stream is an error |
| HeaderReader.Stream.Read | crates/notm-mail/src/message_io.rs:82-86 | A read returns some of the next bytes, is interrupted or fails |
| HeaderReader.Stream.HasMore | crates/notm-mail/src/message_io.rs:102-111 | Tells whether a byte follows the limit |
| HeaderReader.Stream.ReadHeaderText | crates/notm-mail/src/message_io.rs:74-115 | For every way of cutting and interrupting the reads the result is the same function of the stream, its failing position and the limit |
| EncodedWords.Utf8Chunks | crates/notm-mail/src/rfc5322.rs:196-211 | The loop cuts the text where the specified chunks end |
| EncodedWords.ChunksCover | crates/notm-mail/src/rfc5322.rs:196-211 | The chunks are the text, cut between characters, each within the limit, and none could have held one more character |
| EncodedWords.EncodeWords | crates/notm-mail/src/rfc5322.rs:181-194 | One encoded word for each chunk |
| EncodedWords.WriteSubjectHeader | crates/notm-mail/src/rfc5322.rs:125-135 | Succeeds exactly for header text, and appends the folded tokens |
| EncodedWords.SubjectLinesAreShort | crates/notm-mail/src/rfc5322.rs:125-135 | Encoded words are at most 64 characters and stand one to a line, so no line exceeds 73; a plain subject is one line of at most 78 |
| EncodedWords.SubjectIsPlainExactly | crates/notm-mail/src/rfc5322.rs:125-135 | A subject is written as it is if and only if it is ASCII and leaves room for the field's name on a line of 78 |
| SubjectReading.SubjectReadsBack | crates/notm-mail/src/rfc5322.rs:125-135 | For every reader that knows UTF-8 words in base64, whatever else it decodes, and every header-text subject: folded, unfolded and read it is the subject again if and only if it was encoded or holds no word that this reader decodes |
| SubjectReading.SubjectReadsBackAnywhere | crates/notm-mail/src/rfc5322.rs:125-135 | It reads back under every reader that leaves other words alone if and only if it was encoded or no word of it has the form of an encoded word (section 2 of RFC 2047) |
| SubjectReading.ReadWordIsNoSubject | crates/notm-mail/src/rfc5322.rs:125-135 | The failing inputs: every encoded word of at most 69 characters that a reader decodes is, as a subject, written as it is and read as what it encodes |
| SubjectReading.Base64WordIsNoSubject | crates/notm-mail/src/rfc5322.rs:125-135 | Among them the base64 word of every text of 1 to 39 bytes, with charset and encoding spelled in any case |
| SubjectReading.QWordIsNoSubject | crates/notm-mail/src/rfc5322.rs:125-135 | And the Q words of letters and digits, spelled in any case |
| SubjectReading.ReadWordIsReader | crates/notm-mail/src/mime.rs:273-276 | The reader of UTF-8 words in base64 and Q, names in any case, is such a reader |
| SubjectReading.ReadWordIs | crates/notm-mail/src/mime.rs:273-276 | It decodes a word by its charset, encoding and text, which the word determines |
| SubjectReading.ShownIsAsWritten | crates/notm-mail/src/mime.rs:273-276 | Reading never lengthens a text and changes it exactly if it decodes a word of it |
| MimeParameter.RenderMimeParameter | crates/notm-mail/src/rfc5322.rs:1277-1308 | The segment loop produces the specified parameters |
| MimeParameter.SegmentsCover | crates/notm-mail/src/rfc5322.rs:1288-1299 | Segments are groups of whole encoded characters, consecutive and in order, each within 42 characters, and none could have held the next character |
| MimeParameter.ParameterReadsBack | crates/notm-mail/src/rfc5322.rs:1277-1330 | Any value reads back as itself, quoted or in numbered percent-encoded segments |
| MimeParameter.SegmentsFitOnLines | crates/notm-mail/src/rfc5322.rs:1252-1275 | The line-length check of the header writer never fires |
| MimeParameter.PlainIsQuoted | crates/notm-mail/src/rfc5322.rs:1277-1285 | A value is quoted as it is if and only if it is at most 42 printable ASCII characters without quote, backslash and semicolon |
| MimeParameter.UnreservedIsKept | crates/notm-mail/src/rfc5322.rs:1317-1330 | Of an encoded value exactly letters, digits and `-._~` are written as they are, other bytes as two hexadecimal digits |
| Utf8.ReadingUndoesWriting | crates/notm-mail/src/rfc5322.rs:181-194 | The bytes of a text read back as the text |

## Left out

- IdCanonical.CanonicalMessageIdCore: an error and a plain rejection are both `None`, since the callers turn either into the same failure.
- ThreadingHeader.UnfoldRawStructuredHeader: takes text, so the fallback for bytes that are no UTF-8 is not covered.
- ThreadingHeader.RoundTrip: the field body is taken as the header parser hands it over, with or without its leading space; that parser is foreign code.
- Preflight.PreflightPart: reading a part's headers is the parameter `read`, which any function may be, because the header parser is foreign code.
- WireFormat.MessageIsWire, WireFormat.MessageIsRead: the text part is any text made of lines, because its quoted-printable encoder is foreign code; address headers are not among the headers, and embedded messages, which are written as they are, not among the attachments; boundaries are ASCII of at most 70 characters and file names shorter than 10^23 characters.
- QuotedPrintable.ValidateQuotedPrintable: the warnings it collects for recoverable variants are not returned.
- Base64.LengthIsExact: the decoder ignores bits of the last symbol that stand for no byte; one that rejects them accepts fewer texts, those of `Base64.EncodingUndoesDecoding`.
- QuotedPrintable.LineContentLen, Preflight.NextCut: loops that the program has inline are methods of their own here.
- MimeWalk.SelectMultipartBody: selects the HTML body only; the text body and its fallbacks are not collected. The branches are inline in the program.
- MimeWalk.ParseState.WalkLeaf: text bodies and decode warnings of a leaf are not collected.
- MimeWalk.ParseState.WalkPart: text bodies and their fallbacks, decode warnings, classification of signed and encrypted parts and the tree listing are not collected; a leaf's decode result, size bound and transfer-encoding outcome are given with the tree, media types are already lower-cased and content identifiers already normalized.
- MimeExtraction.Extraction.CollectAttachmentData: the limit on the whole message and the reading of the message are outside it.
- ComposerCache.EveryRunIsSafe: several concurrent submitters are outside the protocol; metrics other than the counters named in the state, the preparation of files and the deletion of a lease's directory are left out; a request is a generation and a flag.
- DraftAutosave.AutosaveState.StartPendingWrite: the writer thread is the event that ends a write, with any outcome; a thread that cannot start is a write that fails at once; injected delays and failures are left out.
- DraftStore.ScanNamedDrafts: drafts come in listing order, not sorted by modification time, and the warning text is left out; the directories are distinct.
- DraftMigration.PlanMigration: the name drawn for a conflicting draft is given for each place of the listing, so the loop that draws again while a name is occupied is not modelled.
- DraftResume.InterruptedMigrationResumes, DraftRestarts.CopiesAccumulate: what other programs do to the directories between two starts is not modelled.
- DraftMigration.DraftDirectories.Commit: a write is atomic and durable when it succeeds; crashes inside it are not modelled.
- ThreadTagging.Database.ApplyTagsToThreads: ends with the set of messages handed over; applying tags, its own failures and the count of changed threads are foreign calls.
- Maildir.ExpectedMaildirFilename: renaming the file and reconciling the result with the database are left out.
- LruCache.BoundedLruCache.RebaseRecency: the sort and the binary search are an ordered insertion and the place in the ordered stamps.
- HeaderReader.Stream.ReadHeaderText: converting the retained bytes to display text is left out.
- SubjectReading.SubjectReadsBack: words are separated by blanks, as section 5 of RFC 2047 asks of readers; a reader that looks for encoded words inside other words is not covered. `ReadWord`, the reader given, knows UTF-8 only; other charsets are what the parameter stands for.
- Overflow of `usize` additions is not modelled; the limits keep every sum far below it.
- Address headers, message composition around the modelled writers, HTML sanitising, configuration, the user interface and the automation socket are not part of this model.
- The generation coordinators of attachment, recovery and preparation work are left out: their claims are single branches.
