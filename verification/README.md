# Notifications API: a verified model of its mail path

This project models how the notifications API builds, queues, stores, sends and receives mail, and
proves what the pieces promise each other. It covers four things:

- **MIME bodies.** A body is a tree of text, binary and multipart nodes. `PartPrinter` prints it and
  `PartParser` reads it back; `Encoding` picks a transfer encoding for each leaf with the help of a size
  estimate (`SizeEstimate`) and a scan (`Acceptance`). `TreeFidelity` proves that reading undoes printing,
  `Collisions` that the conditions for it are exact (it counts octets, `Counting`), and `EncodingMismatch` which
  bodies can be read under the name of another transfer encoding than theirs. `MessageReading` does this for
  whole messages, with the header fields of `HeaderFields`; `LostMessages` has a valid mail for every way to get
  lost. `ValidTrees` has what validation gives a tree on its way, `ReadingRules` what the reader does with any
  input, and `SentHeaders` what the fields of a delivered message say, the blind recipients left out. The codecs
  follow their standards: base64 section 4 of RFC 4648 and section 6.8 of RFC 2045, quoted-printable section 6.7
  of RFC 2045, 7bit and 8bit data sections 2.7 and 2.8 of RFC 2045, multipart framing section 5.1.1 of RFC 2046,
  the line limit section 2.1.1 and folding section 2.2.3 of RFC 5322, UTF-8 section 4 of RFC 3629. Everything is
  stated over octets, line endings included.
- **The queue.** `MailQueue` has the `mails` table and its queries as a class with its methods, and the
  loop that drains it through a `MailSender`. `QueueRuns` has the protocol of one worker with a clock, lost
  status writes and crashes as a transition relation, and proves what holds on every run.
- **Conversions.** A mail goes from the SMTP proxy to protobuf (`ProtoConversion`, `MailConversion`), to a
  database row (`Database`) and back. The domains on which these trips lose nothing are stated exactly.
  `MailServer` puts them together: the queued way against the direct way. `QueuedDelivery` has the whole way of
  a request over runs of the queue. `RequestRules` has who may send, whom it reaches and what becomes of its
  texts.
- **The SMTP session.** `SmtpSession` has the session object, `SessionRuns` what holds on every command
  sequence and what becomes of the recipients.

Loops and objects of the source are methods and classes here. Each is proved equal to a function of its
inputs or of its old state; the lemmas are about those functions.

## Parameters

Library functions whose text is not part of the repository are parameters. `Codec` writes and reads a header
block and a content type, and decodes charsets other than UTF-8; `AddressSyntax` writes and reads an address;
`Rendering` writes header values; `fold` lower-cases an address; `draw` gives the random boundary of the
multipart at each position of a tree; `handleAuth` answers a login, where the backend was built with one, and
`handleMessage` a message. Where a theorem needs one of them to be inverted, it asks for that of the very header
blocks and addresses of the mail at hand (`HeaderSurvives`, `AddressSurvives`). Clock readings, message
identifiers and the success of a transmission or of a database write are inputs.

## Where the code and its documentation differ

- The queries, with the intervals of `DEPLOYED`, compare `processed_at - NOW() > interval`
  (`sql/queries/mail.sql:11`, `:48`), while `README.md:310` speaks of one retry an hour. `Reading` has both. As written, a row is popped at most once
  and nothing is ever deleted (`NoRetryAsWritten`, `NothingDeletedAsWritten`); as documented, pops are more
  than an interval apart (`PopsAreApart`). The safety results hold for both.
- A mail sent at once is stored as sent without a processing time, so it is never deleted under either
  reading (`DirectRowsAreNeverDeleted`), although `README.md:299` has sent messages kept for a fixed period.
- `pkg/smtpserver/server.go:304` has it that the printer always writes a Mime-Version field. It writes none
  for a mail without a content type, and none for one with an empty extra header of that name, which suppresses
  the field and is swallowed itself (`pkg/mailer/imf.go:37-49`). Both are valid mails, and the reader then takes
  the printed body for octets (`pkg/smtpserver/server.go:349-355`): `LostMessages.UntypedTextIsReadAsOctets` and
  `LostMessages.EmptyVersionIsReadAsOctets` have one message each that does not come back.
- Content-Transfer-Encoding is not among the names that an extra header must not have
  (`pkg/mailer/mail.go:18-28`). Such a header goes out before the printer's own field (`pkg/mailer/imf.go:35-55`) and
  is the one that is read (`pkg/smtpserver/server.go:387`). `LostMessages.ForeignEncodingIsLost` has a valid mail, with
  the name in any case, whose body is refused for it; `EncodingMismatch.LeafFitsIff` says for every leaf and every
  name whether it is read back all the same.
- The printer does not look for a boundary of its content type in the content (`pkg/mailer/part.go:150-156`). A line
  that looks like one loses the tree, and with good headers, boundaries and types nothing else does
  (`Collisions.RoundTripIff`). `LostMessages.BoundaryInTextIsLost` has such a tree,
  `MailServer.BoundaryInRequestIsAdmitted` an admitted request with it.
- `MessageRoundTrip` puts these together: for a tree in good form whose fields and content type can be read back, a
  printed message gives its body back exactly if none of the three happens to it, or the body is octets that nothing
  was done to.
- A text is read by replacing CRLF with LF once (`pkg/smtpserver/server.go:425`). Where a CR comes directly before a
  CRLF that makes a new CRLF, and a line is lost: `ReadingRules.DoubleCrLosesALine` has such a text,
  `ReadingRules.TextIsDecoded` the exact condition.
- A queued body with an empty node comes back with a nil part, on which a method is called
  (`internal/dispatcher/queuehandler.go:108`, `pkg/mailer/mail.go:116`), so the worker breaks down with the whole
  program, while the direct way sends the mail. `QueuedRequest` has the exact condition, `EmptyTextBreaksTheWorker`
  an admitted request that does it, `Drain` what is left of the pass.
- The check of the To header looks at the error of the Reply-To header
  (`pkg/smtpserver/server.go:246-252`), so it runs only when there is one. `UnmatchedToIsHandled` has
  commands that make the session hand on a message to somebody who is no recipient, `AcceptedHeaders` what is
  checked, `ReachesOnlyIff` when nobody else is reached; no other result rests on the check.
- Extra headers of a request are checked but not carried over (`internal/grpcservers/mailer.go:47-60`);
  `MailOf` and `Rebuilt` say so.

## Model

| member | source | states |
|---|---|---|
| LineEndings.NormalizeLineEndings | pkg/mailer/imf.go:60-63 | the three passes give the same lines with every CR and LF paired |
| LineEndings.ThreePasses | pkg/mailer/imf.go:60-63 | composing the three replacements is splitting at CRLF, lone CR and lone LF and joining with CRLF |
| LineEndings.CanonicalIffPaired | pkg/mailer/imf.go:60-63 | the rewrite changes nothing if and only if every CR is followed by LF and every LF preceded by CR |
| LineEndings.CanonicalIsIdempotent | pkg/mailer/imf.go:60-63 | a second rewrite changes nothing |
| LineEndings.LeafThenMessage | pkg/mailer/part.go:59-61 | rewriting a leaf and then the message is rewriting the message once |
| LineEndings.LinesAcrossCrlf | pkg/mailer/part.go:168-169 | a CRLF between two texts separates their lines, whatever they end and start with |
| Acceptance.IsAcceptable7or8Bit | pkg/mailer/encoding.go:53-87 | the scan with its early exits decides exactly the plain definitions of 7bit and 8bit data |
| Acceptance.ScanRunes | pkg/mailer/encoding.go:61-75 | the loop over code points decides about all octets, although it may stop early |
| Acceptance.ScanChunks | pkg/mailer/encoding.go:76-82 | true exactly if a chunk between CRLFs has more than 998 octets |
| Acceptance.LinesWithinChunks | pkg/mailer/encoding.go:77-82 | splitting at every break never gives a longer line than splitting at CRLF |
| Acceptance.SevenBitSurvivesRewrite | pkg/mailer/part.go:44-69 | text acceptable as 7bit before the rewrite is so after it |
| Base64.DecodeInvertsEncode | pkg/mailer/encoding.go:117 | decoding base64 text gives the octets back |
| Base64.WrapLines | pkg/mailer/encoding.go:119-127 | the loop cuts the text into lines of 76 characters |
| Base64.UnwrapInvertsWrap | pkg/mailer/encoding.go:119-127 | removing the line breaks gives the base64 text back |
| Base64.WrapShape | pkg/mailer/encoding.go:119-127 | lines have at most 76 characters; the exact length with its line feeds |
| Base64.GroupsAreNumbers | pkg/mailer/encoding.go:117 | each four characters are the number that three octets make, the first octet highest, and padding stands for exactly the octets that are missing |
| Base64.AlphabetIsStandard | pkg/mailer/encoding.go:117 | the characters in the order of the standard table |
| Base64.WrappedRoundTrip | pkg/smtpserver/server.go:467-468 | wrapped base64 decodes to the input after the line endings of the message were rewritten |
| QuotedPrintable.RoundTrip | pkg/smtpserver/server.go:465-466 | decoding quoted-printable gives the content with CRLF line endings |
| QuotedPrintable.EncodeShape | pkg/mailer/encoding.go:109-115 | output lines are ASCII, at most 76 characters, and already canonical |
| QuotedPrintable.EncodeCopiesIff | pkg/mailer/encoding.go:109-115 | encoding changes nothing but line breaks if and only if no line needs an escape or a soft line break |
| QuotedPrintable.EncodeIsWellFormed | pkg/mailer/encoding.go:109-115 | in every output line an equals sign starts an escape of two upper-case hexadecimal digits or ends the line, all else is printable or a tab, and no line ends in a blank |
| QuotedPrintable.DigitCaseDoesNotMatter | pkg/smtpserver/server.go:465-466 | the reader takes escapes with lower-case digits for the same |
| QuotedPrintable.DecodableIff | pkg/smtpserver/server.go:465-466 | a line decodes if and only if it has no control characters but tabs |
| QuotedPrintable.DecodeTextKeeps | pkg/smtpserver/server.go:465-466 | decoding quoted-printable never makes a line longer, and keeps its length if and only if it changes nothing, which is so if and only if nothing in the line is to be decoded |
| TransferDecoding.NormalizeNames | pkg/smtpserver/server.go:525-527 | each encoding name that is written is read as itself |
| TransferDecoding.NamesInAnyCase | pkg/smtpserver/server.go:525-527 | a name is recognised in any case and with any spaces around it |
| Utf8.EncodedIsValid | pkg/mailer/encoding.go:54 | every sequence of code points, encoded in the shortest form, is well-formed |
| Utf8.ValidIsEncoded | pkg/mailer/encoding.go:54 | and every well-formed text is such a sequence, without surrogates and nothing above 0x10FFFF |
| SizeEstimate.EstimateQuotedPrintableSize | pkg/mailer/encoding.go:18-47 | the loop computes the estimate that the theorems are about |
| SizeEstimate.EstimateExactOnOneLine | pkg/mailer/encoding.go:18-47 | without line breaks the estimate is the encoder's length if and only if the text does not end in a blank, and otherwise at most 5 too small |
| SizeEstimate.EstimateOnCanonicalText | pkg/mailer/encoding.go:18-47 | on every canonical text it is the encoder's length, plus 3 for each full line, less the exact cost of blanks at line ends; without those it is between the length and 3 for each CRLF more |
| SizeEstimate.BlankCostBounds | pkg/mailer/encoding.go:22-44 | a blank at a line end makes the estimate 2 or 5 too small, any other line end is exact |
| SizeEstimate.EstimateOnOctets | pkg/mailer/encoding.go:18-47 | on any octets the estimate differs from the encoder's length by an exact shortfall, which is the number of lone breaks if and only if no line ends in a blank, and an exact excess of at most 6 for each CR |
| SizeEstimate.LateStartBounds | pkg/mailer/encoding.go:36-40 | a line that starts in a later column takes at most one soft line break more, however long it is |
| SizeEstimate.EstimateOfPlain | pkg/mailer/encoding.go:18-47 | text without CR that the encoder copies is estimated at its own length |
| Encoding.EncodeBytes | pkg/mailer/encoding.go:89-128 | which encoding is chosen and what is written; quoted-printable has escapes of two upper-case digits, no blank at a line end and at most 76 characters in a line, base64 only its alphabet and padding |
| Encoding.ChoiceIff | pkg/mailer/encoding.go:90-98 | octets go as they are if and only if they are printable, with no more than 998 of them between two CRLFs, and ASCII, or UTF-8 where that may be sent |
| Encoding.Base64EstimateSlack | pkg/mailer/encoding.go:102-104 | the base64 estimate exceeds the wrapped length by 1, or by 2 where the last line is full |
| Encoding.ChoiceIsNearMinimal | pkg/mailer/encoding.go:100-127 | with an exact estimate the output is bounded by the base64 bound and at most 2 longer than the alternative |
| Encoding.ChoiceOnOctets | pkg/mailer/encoding.go:100-127 | the same comparison on any octets, with the exact error of the estimate |
| Encoding.ChoiceOnCanonicalText | pkg/mailer/encoding.go:100-127 | on canonical text that error is the cost of full lines and of blanks at line ends |
| Encoding.Base64DiffersFromInput | pkg/mailer/encoding.go:117-127 | octets that go as base64 are never the same on the wire |
| Encoding.LeafRoundTrip | pkg/smtpserver/server.go:463-472 | every octet string comes back from its encoding, exactly for base64 and canonically otherwise |
| Encoding.LeafIsTransportSafe | pkg/mailer/encoding.go:89-128 | after the rewrite lines have at most 998 or 76 octets, and without 8bit support all are ASCII |
| PartPrinter.ValidateHeaders | pkg/mailer/part.go:118-130 | no problem exactly if every header of a child has a good key and value and is not Content-Type |
| PartPrinter.Validate | pkg/mailer/part.go:44-138 | a run-time fault exactly if a nil part is reached, and otherwise no problem exactly if the whole tree is valid |
| PartPrinter.ValidIsEncodable | pkg/mailer/part.go:146-155 | a valid tree never makes the printer write to a nil parameter map |
| PartPrinter.HeaderCharacters | pkg/mailer/mail.go:54-71 | keys and values by the characters that may be in them |
| PartPrinter.BoundaryIff | pkg/mailer/part.go:102-107 | boundaries by their length and characters |
| PartPrinter.Print | pkg/mailer/part.go:57-88 | the recursive printer gives the content, encoding and content type of the tree |
| PartPrinter.PrintMultipart | pkg/mailer/part.go:140-179 | the buffer of a multipart after each child |
| PartPrinter.LinesOfMultipart | pkg/mailer/part.go:149-172 | the lines of a printed multipart are its delimiters, header blocks and children's lines in order |
| PartParser.ReadPart | pkg/smtpserver/server.go:380-429 | the recursive reader: which bodies fail and how, and the tree of all others |
| PartParser.ReadChildren | pkg/smtpserver/server.go:400-413 | the loop over the parts appends one child for each section |
| PartParser.SkipPreamble | pkg/smtpserver/server.go:398-407 | lines before the first delimiter do not matter |
| ReadingRules.TextIsDecoded | pkg/smtpserver/server.go:423-427 | a leaf read as text is the decoded content, transcoded unless its charset is UTF-8 or ASCII, well-formed, and split at CRLF; it has the lines of the content, and no CRLF left, if and only if no CR comes directly before a CRLF there |
| ReadingRules.OctetsAreDecoded | pkg/smtpserver/server.go:417-429 | a leaf read as octets is the decoded content as it is, and is no text or not well-formed as one |
| ReadingRules.DoubleCrLosesALine | pkg/smtpserver/server.go:425 | a text of CR CR LF that loses a line and still has a CRLF |
| ReadingRules.DefaultIsPlainText | pkg/smtpserver/server.go:381-385 | without a content type that parses a leaf is read as ASCII text if it is UTF-8, and as octets otherwise |
| ReadingRules.ParsedTextsAreUtf8 | pkg/smtpserver/server.go:424-426 | every text in a tree that the reader accepts is well-formed UTF-8, at every depth |
| ReadingRules.ChunksSplit | pkg/mailer/encoding.go:77 | the chunks give the text back when they are joined with CRLF, and none has one in it |
| ReadingRules.PreambleDoesNotMatter | pkg/smtpserver/server.go:398-407 | lines before the first delimiter change nothing |
| ReadingRules.EpilogueDoesNotMatter | pkg/smtpserver/server.go:398-407 | lines after the closing delimiter change nothing, whatever they are |
| ReadingRules.PaddingDoesNotMatter | pkg/smtpserver/server.go:398-407 | both delimiters mean the same with blanks after them |
| ReadingRules.EndsChildIff | pkg/smtpserver/server.go:398-407 | a line that starts with the boundary ends a child if and only if nothing, a blank or two dashes come after it |
| ReadingRules.MultipartLabels | pkg/smtpserver/server.go:389-392 | a multipart is refused for its transfer encoding if and only if that is neither empty, 7bit, 8bit nor binary in any case, or a part below is |
| ReadingRules.MultipartNeedsBoundary | pkg/smtpserver/server.go:394-397 | a multipart without a boundary, or with an empty one, is refused |
| ReadingRules.StrayBoundaryIsRefused | pkg/smtpserver/server.go:401-407 | a boundary with more than blanks after it ends its part, and the multipart is refused |
| TreeRoundTrip.PrintedTreeParses | pkg/smtpserver/server.go:380-461 | reading the lines of a printed tree succeeds and gives the received tree |
| TreeRoundTrip.SectionOf | pkg/smtpserver/server.go:401-408 | the reader cuts a printed child out exactly where the writer put it |
| TreeFidelity.ParsingUndoesPrinting | pkg/smtpserver/server.go:380-461 | printing, rewriting and reading gives the same shape, order, types and kinds, and content up to line endings |
| TreeFidelity.ContentIntactIff | pkg/smtpserver/server.go:417-428 | the content of a tree arrives unchanged if and only if its texts have no CR and its octets go as base64 or have paired line ends |
| TreeFidelity.ShapeIffKindsKept | pkg/smtpserver/server.go:422-428 | the shape arrives if and only if every leaf is read as the kind it was written from |
| TreeFidelity.CanonicalKeepsUtf8 | pkg/smtpserver/server.go:423-424 | the rewrite neither breaks nor mends UTF-8 |
| TreeFidelity.BackToLf | pkg/smtpserver/server.go:425 | replacing CRLF by LF gives the original lines ended by LF |
| Collisions.CutSection | pkg/smtpserver/server.go:401-408 | the first content line that looks like a boundary ends the child there |
| Collisions.CutLeafIsLost | pkg/smtpserver/server.go:417-428 | a leaf whose encoded lines are cut short at a line of dashes is not read back, in whichever encoding |
| Collisions.CarriedIff | pkg/mailer/part.go:150-172 | the conditions of the round trip are good framing and the absence of collisions |
| Collisions.RoundTripIff | pkg/smtpserver/server.go:380-461 | a well-framed tree is read back if and only if no content line at any depth looks like a boundary around it |
| ValidTrees.ValidIsFramed | pkg/mailer/part.go:91-138 | a valid tree is printed in good form, as far as its header blocks read back and its leaves are not labelled as multiparts |
| ValidTrees.ValidRoundTripIff | pkg/mailer/part.go:91-138 | so a valid tree under fitting types is read back if and only if no content line looks like a boundary around it |
| ValidTrees.ValidHeadersAreGood | pkg/mailer/part.go:118-130 | at every depth of a valid tree header keys convert, values have no control characters and none names the content type |
| TransportSafety.TreeIsTransportSafe | pkg/mailer/part.go:140-179 | at any depth lines have at most 998 octets and without 8bit support all are ASCII |
| TransportSafety.LabelsAreHonest | pkg/mailer/part.go:140-144 | 8bit is named only where it may be sent, and a part named 7bit is ASCII throughout |
| TransportSafety.CompositeTypesStayUnencoded | pkg/mailer/part.go:44-69 | a leaf valid under a message or multipart type goes out as 7bit, a text with only its line endings changed |
| InternetMessage.ValidateMail | pkg/mailer/mail.go:73-121 | a run-time fault exactly if a nil part is reached, and otherwise no problem exactly if the mail is valid |
| InternetMessage.WriteHeader | pkg/mailer/imf.go:15-55 | the header fields in their order |
| InternetMessage.GetInternetMessageFormat | pkg/mailer/imf.go:10-66 | a fault exactly on a reached nil part or a valid multipart without a content type, a message exactly for all other valid mails, with the rewritten text of headers and body |
| SentHeaders.ReservedFieldsAreSent | pkg/mailer/imf.go:15-53 | the reader finds under From, To, Cc, Reply-To, Date, Message-Id, Subject and Content-Type the component of the mail that belongs there, and no field where the mail has none |
| SentHeaders.BccIsNotSent | pkg/mailer/imf.go:15-24 | no field of a message is named Bcc |
| SentHeaders.BccIsHidden | pkg/mailer/smtp.go:123-145 | the message is the same for every list of blind recipients |
| SentHeaders.AddressesAreJoined | pkg/mailer/smtp.go:76-83 | address lists are written in order, with a comma between two |
| SentHeaders.ExtraFieldsIff | pkg/mailer/imf.go:35-46 | exactly the extra headers with a value are written, each under its canonical key |
| SentHeaders.ExtraIsRead | pkg/mailer/imf.go:35-46 | under a name that is not reserved the reader finds the first extra header of that name |
| SentHeaders.CanonicalSpelling | pkg/mailer/imf.go:37 | the spelling of each character of a key on the wire |
| SentHeaders.ReservedIff | pkg/mailer/mail.go:112-115 | a key is reserved, in any case, if and only if its canonical spelling is in the table |
| SentHeaders.ValidMailIff | pkg/mailer/mail.go:73-121 | the valid mails by the characters of their subject and headers, their content type and their body |
| SentHeaders.NamesContentTypeIff | pkg/mailer/part.go:127-129 | a child header names the content type if and only if its key is canonicalised to that |
| HeaderFields.FieldsDecide | pkg/smtpserver/server.go:343-387 | the reader finds a MIME version exactly if one was sent with a value, the printer's own or an extra header, and takes the transfer encoding that was sent first, names in any case and values folded |
| HeaderFields.AnyCaseIsMimeVersion | pkg/mailer/imf.go:37-40 | a key in any case is sent as Mime-Version, and no other key is |
| HeaderFields.FoldedValue | pkg/smtpserver/server.go:343-387 | a value folded over two lines is read with one blank for the break |
| EncodingMismatch.LeafFitsIff | pkg/smtpserver/server.go:463-472 | a leaf is read back under a name for its transfer encoding, of any kind, if and only if the name stands for the decoder of its encoding, or there is nothing in it to decode or nothing was encoded in it |
| EncodingMismatch.NamedRoundTripIff | pkg/smtpserver/server.go:387-392 | a framed tree is read back under a name if and only if the name fits it and no content line looks like a boundary around it |
| MessageReading.MessageSplits | pkg/smtpserver/server.go:222-225 | the first blank line of the message separates its header fields from the printed body |
| MessageReading.MessageRoundTrip | pkg/smtpserver/server.go:343-355 | a printed message that names a MIME version gives its body back if and only if the transfer encoding sent first fits the body and nothing in it collides; without a MIME version the printed body arrives as octets, which is the body if and only if it is octets that no encoding changed |
| MessageReading.OwnEncodingFits | pkg/mailer/imf.go:55 | without an extra header of that name the transfer encoding that is read is the printer's own, and fits every body |
| MessageReading.PlainNeedsNoDecoding | pkg/smtpserver/server.go:349-355 | short printable lines ended by LF are octets that no encoding changes, also where they go as quoted-printable |
| LostMessages.UntypedTextIsReadAsOctets | pkg/mailer/imf.go:47-49 | a valid mail without a content type whose text arrives as octets |
| LostMessages.EmptyVersionIsReadAsOctets | pkg/mailer/imf.go:37-46 | a valid mail with an empty Mime-Version header, in any case, whose text arrives as octets |
| LostMessages.ForeignEncodingIsLost | pkg/mailer/imf.go:35-55 | a valid mail with an extra Content-Transfer-Encoding header, in any case, whose body is refused |
| LostMessages.BoundaryInTextIsLost | pkg/mailer/part.go:150-172 | a multipart in good form with a text that looks like its boundary, which is not read back |
| ProtoConversion.TransformPartToProto | internal/smtp-proxy/grpc.go:77-109 | the protobuf part, or an error exactly if the tree has a nil part |
| ProtoConversion.TransformMultipartToProto | internal/smtp-proxy/grpc.go:65-75 | the slice filled by index has every child in place |
| ProtoConversion.TransformMimePartsToMailerParts | internal/grpcservers/mailer.go:183-200 | succeeds exactly on convertible contents, with their part |
| ProtoConversion.TransformPbMimeBodyToMailerBody | internal/grpcservers/mailer.go:202-252 | succeeds exactly on convertible bodies, with their tree |
| ProtoConversion.ConvertsIffKeysGood | internal/grpcservers/mailer.go:226-238 | a tree converts back if and only if its header keys are valid at every depth |
| ProtoConversion.ProtoRoundTrip | internal/grpcservers/mailer.go:202-252 | there and back fills the empty content types with their defaults and changes nothing else |
| ProtoConversion.FillingIsIdempotent | internal/grpcservers/mailer.go:208-220 | filling twice is filling once |
| ProtoConversion.FillingIsIdentityIff | internal/grpcservers/mailer.go:208-220 | the round trip is the identity if and only if no content type is empty |
| RequestRules.DefaultsFit | internal/grpcservers/mailer.go:208-220 | the default types fit the parts they are for |
| RequestRules.FilledTypesMatch | internal/grpcservers/mailer.go:202-252 | a valid tree with its types filled in has types that match its parts at every depth, if those that were given do |
| MailConversion.TransformAddress | internal/grpcservers/mailer.go:266-298 | an address passes exactly if it reads as itself and still reads with its name |
| MailConversion.TransformAddressLists | internal/grpcservers/mailer.go:254-264 | lists keep length and order, and fail exactly if one address does |
| MailConversion.BuildGrpcRequestFromMail | internal/smtp-proxy/grpc.go:11-63 | the request made of a mail |
| MailConversion.ReadSimpleMail | internal/grpcservers/mailer.go:81-136 | plain text, HTML, both, and attachments |
| RequestRules.SimpleMailIff | internal/grpcservers/mailer.go:81-88 | a simple mail has a body if and only if it has a text, no content type of its own and no nil attachment |
| RequestRules.SimpleMailLeaves | internal/grpcservers/mailer.go:81-136 | its leaves are its plain text, its HTML and its attachments, in this order and each under its own type |
| RequestRules.AttachedLeaves | internal/grpcservers/mailer.go:109-136 | attachments follow the text in a multipart/mixed |
| RequestRules.AttachmentsAreKept | internal/grpcservers/mailer.go:121-131 | an attachment keeps its octets and its type |
| MailConversion.PbMailToValidatedMail | internal/grpcservers/mailer.go:14-181 | accepts exactly the good requests and gives their mail |
| MailConversion.ProxyMailReturns | internal/grpcservers/mailer.go:14-181 | when a mail from the proxy is accepted, and that its recipients, subject and filled body come through |
| Database.BuildMailBodyDbObject | internal/database/mail.go:32-59 | writes the tree through the pointer, and leaves the target alone when it fails |
| Database.ReconstructMailBodyFromDbObject | internal/database/mail.go:61-95 | the tree of a stored node |
| Database.StorageRoundTrip | internal/database/mail.go:32-95 | reading what was written turns each empty node into nil and keeps all else |
| Database.HollowIsIdentityIff | internal/database/mail.go:32-95 | nothing is lost if and only if no node is empty |
| Database.HollowIsCompleteIff | internal/database/mail.go:61-95 | the tree that comes back has no nil part if and only if no node was empty |
| Database.KindOfNode | internal/database/mail.go:61-95 | children come before text, and text before octets |
| Database.MailToDBEntity | internal/database/mail.go:97-146 | the columns of a mail |
| Database.DBEntityToMail | internal/database/mail.go:148-217 | the mail of a row, exactly if all its addresses read |
| Database.ReadAddressesAreThere | internal/database/mail.go:148-217 | no address that is read from a row is empty |
| Database.RowRoundTrip | internal/database/mail.go:97-217 | a stored mail comes back with its body hollowed, and unchanged if and only if no node is empty |
| MailServer.CheckSendPermission | internal/grpcservers/mail.go:260-295 | no complaint exactly if roles, sender, headers and size allow the mail |
| RequestRules.PermittedIff | internal/grpcservers/mail.go:260-295 | a mail is permitted if and only if the roles include the one to send, the one for its sender and one for each extra header, no header is nil and it is not too large |
| MailServer.CheckRequest | internal/grpcservers/mail.go:206-225 | which requests are refused at once and for which reason: no receiver, no content or a missing token, in this order |
| MailServer.PreprocessIncomingMailRequest | internal/grpcservers/mail.go:197-258 | admits exactly the requests that pass every check, and gives their mail |
| RequestRules.AdmittedIsPermitted | internal/grpcservers/mail.go:245-255 | under authentication the roles of an admitted request cover the envelope sender that the server is given, and the message is not too large |
| RequestRules.AdmittedReachesSomebody | internal/grpcservers/mail.go:206-208 | an admitted request is delivered to as many recipients as it lists, and to one at least |
| RequestRules.AcceptedSender | internal/grpcservers/mail.go:227-238 | the sender is the one made of the address asked for, or of none |
| RequestRules.AcceptedAddresses | internal/grpcservers/mailer.go:29-45 | an accepted mail has the addresses of the request, one by one and each in its own list |
| RequestRules.ProxySender | internal/smtp-proxy/grpc.go:11-63 | a request of the proxy asks for the sender of the mail it received |
| RequestRules.GoodAddressIff | internal/grpcservers/mailer.go:266-298 | the addresses that are accepted: plain ones that read as themselves, and still read with their name |
| RequestRules.AcceptedSurvives | internal/grpcservers/mailer.go:266-298 | with a consistent address syntax every address of an accepted request survives storage |
| RequestRules.AcceptedExtras | internal/grpcservers/mailer.go:47-60 | no accepted request asks for a reserved header or one with a bad key, or names a content type that does not parse |
| RequestRules.MessageIdsDiffer | internal/grpcservers/mail.go:200-204 | two requests share a message identifier if and only if they drew the same number |
| MailServer.Server.SendMail | internal/grpcservers/mail.go:86-148 | transmits once, then inserts; a failed insert is not reported, a failed transmission leaves no trace |
| MailServer.Server.QueueMail | internal/grpcservers/mail.go:29-84 | inserts one submitted row and transmits nothing |
| MailServer.QueuedIsDirect | internal/dispatcher/queuehandler.go:102-108 | the mail rebuilt from a row is the one sent directly if and only if no node of its body is empty, and has a nil part otherwise |
| MailServer.HollowFaultsIff | pkg/mailer/part.go:132-134 | the nil part of a stored valid tree is always reached by validation |
| MailServer.QueuedRequest | internal/dispatcher/queuehandler.go:102-114 | for every accepted request the worker delivers the octets and recipients of the direct way if no node is empty, and breaks down if and only if one is |
| MailServer.EmptyTextBreaksTheWorker | internal/dispatcher/queuehandler.go:108 | an admitted request whose queued form breaks the worker down |
| MailServer.BoundaryInRequestIsAdmitted | internal/grpcservers/mail.go:197-258 | an admitted request whose body is that multipart |
| MailServer.ProxyToWorker | internal/smtp-proxy/grpc.go:11-63 | what the worker transmits of a mail the proxy received, recipient lists unchanged |
| SmtpSession.CollectBcc | pkg/smtpserver/server.go:320-333 | the envelope recipients that no header names |
| SmtpSession.Session.Search | pkg/smtpserver/server.go:253-259 | whether some header address is an envelope recipient |
| SmtpSession.Session.CheckAddressHeaders | pkg/smtpserver/server.go:229-289 | the address and identifier checks of a message |
| SmtpSession.AcceptedHeaders | pkg/smtpserver/server.go:237-279 | the sender is the last MAIL, Cc meets the envelope, and To does so exactly when there is a Reply-To |
| SmtpSession.AcceptedIff | pkg/smtpserver/server.go:229-341 | the messages whose headers are accepted, by their address headers, identifier and date |
| SmtpSession.TrimIdIff | pkg/smtpserver/server.go:282-287 | an identifier loses the characters at its two ends if one of them is its bracket, is refused if neither is, and faults if it is one bracket alone |
| SmtpSession.Session.DoAuth | pkg/smtpserver/server.go:118-137 | a login sets the context, a failed one changes nothing, and a backend without a login handler faults |
| SmtpSession.Session.DoAuthPlain | pkg/smtpserver/server.go:139-150 | the older entry does the same where a login is required, and refuses otherwise |
| SmtpSession.Session.DoMail | pkg/smtpserver/server.go:172-178 | the sender is set only after a login |
| SmtpSession.Session.DoRcpt | pkg/smtpserver/server.go:180-186 | recipients are appended only after a login |
| SmtpSession.Session.DoReset | pkg/smtpserver/server.go:164-170 | back to the initial state, logged out |
| SmtpSession.Session.DoData | pkg/smtpserver/server.go:188-367 | which messages are handed on, with which context and mail, and the reply, the fault on a one-character identifier and a failing handler included |
| SmtpSession.HandledFollows | pkg/smtpserver/server.go:188-367 | a handled message has the context, the sender, which is not empty, and the remaining recipients of the session, and needs a login |
| SmtpSession.HandledIsTaken | pkg/smtpserver/server.go:188-367 | a handled mail has the From, Reply-To, To and Cc addresses of its message, its subject, content type, trimmed identifier, date and body, no extra headers, and Bcc from the envelope |
| SmtpSession.ReplyTells | pkg/smtpserver/server.go:118-367 | what is acknowledged is done and what is refused changes nothing, for every command |
| SessionRuns.EveryStateIsExplained | pkg/smtpserver/server.go:118-196 | a reachable state is logged in only after a successful login since the last Reset, and holds what came after it |
| SessionRuns.HandledMessagesAreAuthorized | pkg/smtpserver/server.go:188-367 | every handled message follows a login without Reset, in the context of the latest one, from the last MAIL, with exactly the RCPTs since; its addresses are those of the headers of the message that was sent, and Bcc is the rest of the RCPTs |
| SessionRuns.RecipientsAreConserved | pkg/smtpserver/server.go:320-333 | every envelope recipient is named by a header or by Bcc, ignoring case |
| SessionRuns.BccCounts | pkg/smtpserver/server.go:328-332 | Bcc has a recipient as often as the envelope, or not at all if a header names it |
| SessionRuns.BccInOrder | pkg/smtpserver/server.go:328-332 | Bcc keeps the order of the envelope |
| SessionRuns.BccHasNoNames | pkg/smtpserver/server.go:328-332 | the entries of Bcc are bare envelope addresses |
| MailSender.CollectRecipients | pkg/mailer/smtp.go:128-132 | the final addresses are those of To, Cc and Bcc in this order |
| SentHeaders.BccIsReached | pkg/mailer/smtp.go:128-132 | everybody in To, Cc and Bcc is delivered to, in this order |
| MailSender.Sender.TransmitMail | pkg/mailer/smtp.go:98-150 | broken exactly on a mail that cannot be printed, delivered exactly if the mail has an identifier, is valid and the server takes it; what the server is given, and from whom |
| SentHeaders.SenderIsShown | pkg/mailer/smtp.go:139-145 | the envelope sender is the address that the From field shows |
| SentHeaders.DeliveryIsTransportSafe | pkg/mailer/smtp.go:123 | after its header every line of a delivered message is ASCII and has at most 998 octets |
| SessionRuns.ReachesOnlyIff | pkg/mailer/smtp.go:128-132 | nobody but recipients is reached if and only if every To and Cc address is one, ignoring case |
| SessionRuns.RcptReachesTransmission | pkg/mailer/smtp.go:128-132 | every RCPT since the login is among the addresses the worker transmits to, and nobody else is if and only if To and Cc name RCPTs only; To, Cc and subject are those of the message |
| SessionRuns.LetterReachesWorker | pkg/smtpserver/server.go:188-367 | after any login a message to its one recipient is handed on, accepted by the mail server and stored so that it comes back whole |
| SessionRuns.UnmatchedToIsHandled | pkg/smtpserver/server.go:246-260 | commands after which a message to an address that was no RCPT is handed on |
| MailQueue.MailTable.CreateMail | sql/queries/mail.sql:25-41 | a fresh row without a processing time |
| MailQueue.MailTable.PopMailForProcessing | sql/queries/mail.sql:1-18 | nothing exactly if no row is eligible, else one eligible row is marked as processing and stamped, and no other changes |
| MailQueue.MailTable.SetMailStatus | sql/queries/mail.sql:20-23 | the row has the given status, with its columns and time kept, and no other row changes |
| MailQueue.MailTable.DeleteOldMails | sql/queries/mail.sql:43-48 | exactly the sent rows past the interval go, under either reading, and the others stay as they are |
| MailQueue.DueIff | sql/queries/mail.sql:4-11 | submitted rows are due at once, sent ones never, and others if and only if their age is past the interval, under either reading |
| MailQueue.TurnMarks | internal/dispatcher/queuehandler.go:85-116 | a turn stamps its row and changes no other; the row ends as sent if and only if the mail was handled and the status was written |
| MailQueue.QueueHandler.PopAndHandleMail | internal/dispatcher/queuehandler.go:63-118 | one turn: what was popped, transmitted and written, with a lost write not reported and a row that breaks the sender down told apart |
| MailQueue.QueueHandler.Drain | internal/dispatcher/queuehandler.go:44-54 | the pass ends after at most as many turns as rows come up in it, breaks down if and only if it pops a row that cannot be printed, and every other row before its end went out exactly once, in order; after an empty pop nothing eligible is left |
| MailQueue.QueueHandler.DrainAsDeployed | internal/dispatcher/queuehandler.go:44-54 | as deployed, a pass that empties the queue has sent exactly the mails of the rows submitted at its start, once each, and it breaks down if and only if it pops a row that cannot be printed |
| MailQueue.PendingAsWritten | sql/queries/mail.sql:8-11 | as written, with a clock that never goes back and processing times in the past, exactly the submitted rows can come up in a pass |
| MailQueue.ShortPass | internal/dispatcher/queuehandler.go:44-61 | under either reading a pass of one interval pops no row twice |
| MailQueue.MonotoneIsNotDueAgain | sql/queries/mail.sql:8-11 | as written, a clock that never goes back is enough for no row to be popped twice in a pass, however long it takes |
| MailQueue.TurnTakesOneEligibleRow | internal/dispatcher/queuehandler.go:44-61 | within an interval a turn removes exactly the popped row from the eligible ones, even if its write is lost |
| MailQueue.TurnShrinksPending | internal/dispatcher/queuehandler.go:44-61 | the measure of a pass falls by the popped row each turn |
| QueueRuns.TurnIsThreeSteps | internal/dispatcher/queuehandler.go:63-118 | a turn of the handler is a pop, a transmission and a status write of the protocol, and a breakdown is a crash after them |
| QueueRuns.RunsAreConsistent | sql/queries/mail.sql:14-23 | on every run processing and failed rows have a processing time that is not in the future |
| QueueRuns.TransmissionsBounded | internal/dispatcher/queuehandler.go:63-118 | on every run a row is transmitted at most once more than its status writes were lost |
| QueueRuns.BoundIsMet | internal/dispatcher/queuehandler.go:85-114 | as documented the bound is met: a run with one crash and two transmissions of one mail |
| QueueRuns.SentIsFinal | sql/queries/mail.sql:4-11 | a row marked sent is never popped or transmitted again |
| QueueRuns.SentWentOut | internal/dispatcher/queuehandler.go:85-114 | on every run a row marked sent was transmitted successfully before, or inserted as sent |
| QueueRuns.IdsAreFresh | sql/queries/mail.sql:25-41 | no two insertions have the same row |
| QueueRuns.QueuedMailIsNotLost | internal/grpcservers/mail.go:64-76 | on every run a submitted row stays with its content until it was transmitted successfully |
| QueueRuns.TransmittedWasQueued | internal/dispatcher/queuehandler.go:102-108 | on every run what the worker transmits are the columns some row was submitted with |
| QueuedDelivery.WorkerDeliversRequests | internal/grpcservers/mail.go:59-76 | on every run fed by `QueueMail`, what the worker delivers is an earlier accepted request without an empty node, with the octets and recipients of the direct way |
| QueueRuns.DirectRowsAreNeverDeleted | internal/grpcservers/mail.go:126-138 | a row inserted as sent stays forever |
| QueueRuns.PopsAreApart | sql/queries/mail.sql:5-11 | as documented, two pops of a row are more than the retry interval apart |
| QueueRuns.PopsBounded | internal/dispatcher/queuehandler.go:26-27 | as documented, a row is popped at most 1 + (t1 - t0) / interval times between its first and last pop |
| QueueRuns.DocumentedIntervals | internal/dispatcher/queuehandler.go:35-38 | as documented, pops of a row are more than an hour apart and rows go only after 120 days |
| QueueRuns.DeleteRemoves | sql/queries/mail.sql:43-48 | which rows a cleanup removes |
| QueueRuns.NoRetryAsWritten | sql/queries/mail.sql:8-11 | as written, a row is popped at most once |
| QueueRuns.NothingDeletedAsWritten | sql/queries/mail.sql:43-48 | as written, nothing is deleted |

## Left out

- Network and transport: the SMTP and gRPC wire protocols, TLS, HTTP to the Graph API, and the rate of the endless outer loops. `MailSender` is the SMTP sender.
- `SendDryRun`, logging-only mode and observability, which would add only easy members.
- The Slack client, the token cache, configuration and the command line.
- JSON text: the database object is the tree that is written and read, so the replacement of invalid UTF-8 in JSON strings is not modelled.
- PartPrinter.Print: does not print the extra headers of a child, whose values are written raw and decoded on the way back; they are covered in the protobuf and database round trips.
- PartPrinter.PrintMultipart: leaves the extra headers of its children out for the same reason.
- PartParser.ReadPart: gives children no extra headers, for the same reason; it refuses a nested multipart that is itself labelled quoted-printable, whose label the library hides and whose body it decodes before `parsePart` sees it. No printed tree has one.
- PartParser.ReadChildren: the same.
- QuotedPrintable.RoundTrip: is about the encoder of section 6.7 of RFC 2045 with greedy lines, which takes a CRLF, a lone CR and a lone LF as one line break each; the inner state of a particular library writer is not part of this model.
- MailTypes.ContentType: parameters other than charset and boundary are dropped.
- MailConversion.PbMailToValidatedMail: merges the address errors and the errors inside a multipart body into one each.
- MailQueue.MailTable.PopMailForProcessing: is one atomic step; the isolation of the database is not modelled, and there is one worker.
- Retry liveness: no statement says that a failed mail is retried, because as the query is written it is not.
