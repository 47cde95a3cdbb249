# Doctor–patient mail front-end: a Dafny model

The system is a web front-end for doctors and their patients. Behind it sit:

- an IMAP mailbox, holding the OPD (out-patient visit) reports a doctor sends;
- a MongoDB store of patients and of doctor–patient access rights;
- an SMTP account used for outgoing mail.

This project models the logic that sits between those services:

- reading a message body and its images from MIME parts;
- looking up an attachment by name;
- listing the attachment names of a BODYSTRUCTURE tree;
- building and sorting the message list;
- canonicalising and de-duplicating recipient addresses, and enriching them with patient names;
- the access-rights store rules and the save-patient upsert;
- framing outgoing mail: the base64 attachment wrapped at 76 columns, the multipart close delimiter, the subject truncation and the registration mail;
- the login one-time-code store;
- checking the IMAP and SMTP configuration.

The external services are inputs.

- **IMAP server** — an `Imap.Server` value holds:
  - the mailbox, as messages by sequence number;
  - the server's answer to each SEARCH;
  - one failure flag per command;
  - how many messages a failing FETCH streams before it reports the error.
- **Mongo collections** — fields of the `AccessStore.Database` class. A set of failing calls is an input.
- **Clock, random draw, send outcomes, template rendering and PDF compiler** — parameters.

The code exists in two generations: the current files, and older copies in `services/email_services.go`. Each older copy has its own member, `*Legacy` module or `Version` flag, and lemmas relate the two.

Modules, one per source file or concern:

| module | models |
|---|---|
| `Wrappers`, `Ascii`, `Decimal`, `Seqs`, `Base64` | Option/Result; ASCII string functions of Go's `strings`; decimal formatting and parsing; sequence lemmas and the sort; base64 per RFC 4648 section 4 |
| `Imap`, `BodyStructure` | the mailbox and the FETCH/SEARCH answers; `getAttachmentNames` |
| `MessageBody`, `MessageBodyLegacy` | `FetchPlainTextEmailBody` and `CheckEmailExists` |
| `AttachmentFetch` | `FetchAttachment`, both copies |
| `TableList` | `FetchEmails`, `FetchAllDoctorsOfPatient` |
| `Dropdown`, `DropdownLegacy` | `ExtractMobileNumber`, `FetchEmailIDs`, `GetUniqueRecipients` |
| `SenderName`, `SenderNameLegacy` | `FetchFromNameByEmail`, `GenerateOTP` |
| `AccessStore` | `services/mongoDBEmailCheck.go`, `GetPatientByMobile` |
| `Recipients` | `GetEnrichedRecipients` |
| `PatientHandler` | `controllers/patientDBhandler.go` |
| `PdfMail`, `RegistrationMail` | `GeneratePDFAndSendEmail` and `SendEmailWithAttachment`; `SendEmailNewPatientRegistration` |
| `EmailControllers` | the login handler's code store, the login address pattern, the UID parameters, `GeneratePDF` |
| `ImapConnect`, `SmtpConfig` | `config/imapclient.go`, `config/smtp.go` |

Where the code updates state, the model uses classes:

- the Mongo database;
- the code store;
- the IMAP client;
- the SMTP loader.

The loops become methods with loop invariants, each proved equal to a specification function. The properties are proved about those functions.

Behaviours of the code worth noting:

- The older `FetchFromNameByEmail` returns the user's own address when it finds no name. The current one returns `""`.
- `GetEnrichedRecipients` skips entries without `@`, so it returns nothing when fed by `GetUniqueRecipients` (see Findings).

## Model

| member | source | states |
|---|---|---|
| Ascii.ToLowerIdempotent | services/fetchDropdownList.go:81 | lower-casing twice is lower-casing once |
| Ascii.EqualFoldLower | services/email_service.go:99 | `strings.EqualFold` on ASCII holds exactly when both lower-cased strings are equal |
| Ascii.TrimSpace | services/sendEmailAddPatient.go:31-38 | the result is no longer than the input and has no white space at either end |
| Ascii.TrimSpaceOfTrimmed | services/sendEmailAddPatient.go:31-38 | trimming is idempotent |
| Ascii.TrimSpaceEmpty | services/generateAndSendPdf.go:28 | a string trims to "" exactly when it is all white space |
| Ascii.Count | services/fetchDropdownList.go:28-29 | the number of occurrences of a character is at most the length, and 0 exactly when it is absent |
| Ascii.SplitJoin | services/fetchDropdownList.go:28 | joining the pieces of `strings.Split` with the separator gives back the input |
| Ascii.SplitPieces | config/imapclient.go:27-30 | no piece contains the separator, and there is one piece more than there are separators |
| Ascii.TitleFrom | services/email_service.go:100 | `strings.Title` keeps the length and upper-cases exactly the characters that follow a separator (or start the text) |
| Ascii.TitleOnlyChangesCase | services/email_service.go:100 | title-casing a lower-cased name changes only letter case, position by position |
| Decimal.ZeroPad6 | services/email_service.go:36-37 | `%06d` of a number below 10^6 is six digits whose value is the number |
| Decimal.ValueOfItoa | controllers/email_controllers.go:436-447 | the digits `strconv.Itoa` writes denote the number |
| Decimal.ParseUint32 | controllers/email_controllers.go:441-445 | `ParseUint(s, 10, 32)` succeeds exactly on a non-empty all-digit string whose value is below 2^32, returning that value; it fails with ErrRange exactly when the run of digits before the first non-digit already exceeds 2^32 - 1, and with ErrSyntax otherwise |
| Decimal.OverflowBeforeJunk | controllers/email_controllers.go:441-445 | digits worth more than 2^32 - 1 give ErrRange whatever follows them, because the scan stops at the overflow |
| Decimal.ParseItoa | services/fetchTableList.go:102 | parsing the decimal text of a 32-bit number gives back the number |
| Base64.Encode | services/generateAndSendPdf.go:180 | the encoding has 4·⌈n/3⌉ characters, all from the alphabet or '=' padding |
| Base64.LetterValueOfLetter | services/generateAndSendPdf.go:180 | the alphabet of RFC 4648 section 4 is decoded letter by letter |
| Base64.TripleRoundTrip | services/generateAndSendPdf.go:180 | one group of three octets decodes back from its four letters |
| Base64.DecodeEncode | services/generateAndSendPdf.go:180 | decoding the encoding gives back the octets: the encoding is lossless |
| Seqs.SortSorted | services/fetchTableList.go:135-137 | the sort orders by its key, non-increasing |
| Seqs.SortPerm | services/fetchTableList.go:135-137 | the sort is a permutation of its input |
| Seqs.PermDistinct | services/fetchDropdownList.go:93-95 | a permutation of a list without repeats has no repeats |
| Imap.AddrSpec | services/fetchDropdownList.go:80 | the `%s@%s` address is the mailbox name, '@' and the host name |
| Imap.Text | services/fetchEmailBody.go:59 | `string(bytes)` keeps the length and maps each byte to the character with its code |
| Imap.Fetch | services/fetchTableList.go:59-72 | FETCH delivers no more messages than the mailbox holds, all of them from the mailbox |
| Imap.Selected | services/fetchTableList.go:59-72 | the numbers listed lie between 1 and n, and there are at most n |
| Imap.SelectedInSet | services/fetchTableList.go:59-72 | every number listed is in the set |
| Imap.SelectedAscending | services/fetchTableList.go:59-72 | the numbers ascend strictly, so none is listed twice |
| Imap.SelectedComplete | services/fetchTableList.go:59-72 | every number of the set from 1 to n is listed |
| Imap.FetchSelects | services/fetchTableList.go:59-72 | FETCH delivers exactly the messages whose numbers the set holds, in ascending number order |
| Imap.FetchFullRange | services/fetchTableList.go:188 | the range 1:n over a mailbox of n messages fetches every message, in order |
| Imap.FetchEmptySet | services/fetchTableList.go:59-72 | a set that no message number falls in fetches nothing |
| Imap.UidFetch | services/fetchEmailBody.go:30-44 | UID 0, which go-imap's AddNum writes as `*`, fetches a message with the highest UID and nothing only from an empty mailbox; any other UID fetches a message carrying it, and nothing exactly when no message carries it |
| Imap.UidFetchFirst | services/fetchEmailBody.go:30-44 | for a UID other than 0, the message found is the first in the mailbox that carries it |
| Imap.HighestUid | services/fetchEmailBody.go:30-44 | the message whose UID no other message exceeds; None exactly for an empty mailbox |
| Imap.UidFetchStarIsNewest | services/fetchEmailBody.go:30-44 | with UIDs ascending in mailbox order, as a server assigns them, UID 0 (`*`) fetches the last, newest message |
| Imap.StarIsNewestUid | services/fetchEmailBody.go:30-44 | with ascending UIDs, asking for UID 0 answers as asking for the newest message's own UID |
| Imap.DeliveredPrefix | services/email_service.go:87-113 | the messages put on the channel are a prefix of FETCH's answer: all of it when the command succeeds, its first `streamedBeforeError` messages (or all, if fewer) when it fails |
| BodyStructure.ResolvedName | services/fetchTableList.go:291-294 | the name is the `filename` parameter, else `name`, else "" |
| BodyStructure.AttachmentNamesIsPreOrder | services/fetchTableList.go:281-305 | the inventory is the resolved names of the listed nodes of the tree, in pre-order; containers are listed like leaves |
| BodyStructure.ChildNamesIsPreOrder | services/fetchTableList.go:300-302 | the children's inventories, concatenated, are the names of the children's pre-order walks |
| BodyStructure.NamesOfSound | services/fetchTableList.go:289-297 | every listed name is non-empty and belongs to an attachment node |
| BodyStructure.NoAttachmentNoNames | services/fetchTableList.go:284-297 | nodes without an attachment disposition give an empty inventory |
| BodyStructure.InlineNotListed | services/fetchTableList.go:289 | an inline node is never listed, whatever its parameters |
| BodyStructure.AttachmentNamesSound | services/fetchTableList.go:281-305 | every name returned is non-empty and is the resolved name of an attachment node of the tree |
| BodyStructure.NoListedNodeNoNames | services/fetchTableList.go:281-305 | a tree with no attachment node has an empty inventory |
| MessageBody.Param | services/fetchEmailBody.go:84 | a Go map lookup gives "" for a missing key |
| MessageBody.FileName | services/fetchEmailBody.go:84-88 | the disposition `filename`, else the content-type `name` |
| MessageBody.WalkParts | services/fetchEmailBody.go:70-121 | the part loop yields the last kept HTML text, the last kept plain text and the captured media in part order, as the specification functions say |
| MessageBody.FetchPlainTextEmailBody | services/fetchEmailBody.go:19-138 | the procedure returns exactly what `FetchBody` specifies, UID 0 standing for the highest UID |
| MessageBody.LastTextIsLast | services/fetchEmailBody.go:91-100 | the chosen text is that of the last kept part of its kind; no later part of the kind is kept |
| MessageBody.LastTextNone | services/fetchEmailBody.go:91-100 | with no kept part of the kind, the text of that kind is "" |
| MessageBody.LastTextSkipsErrors | services/fetchEmailBody.go:75-78 | unreadable parts do not affect the text chosen |
| MessageBody.ErrorPartSkipped | services/fetchEmailBody.go:75-78 | a NextPart error skips that part only: the outcome is that of the same message without it |
| MessageBody.CapturedSkipsErrors | services/fetchEmailBody.go:75-78 | unreadable parts do not affect the captured media |
| MessageBody.CapturedFromImages | services/fetchEmailBody.go:101-119 | every captured medium comes from an image part with data |
| MessageBody.TextPartsNotCaptured | services/fetchEmailBody.go:91-101 | an HTML or plain-text part is never captured, whatever its disposition |
| MessageBody.MediaCarriesName | services/fetchEmailBody.go:84-88 | a captured image carries the disposition filename, else the content-type name |
| MessageBody.NonMimeVerbatim | services/fetchEmailBody.go:57-60 | without the `Content-Type:` marker, the raw body is returned verbatim with no media |
| MessageBody.NoContentIff | services/fetchEmailBody.go:129-132 | "no content available" is reported exactly when the body is empty and nothing was captured |
| MessageBody.HtmlPreferred | services/fetchEmailBody.go:91-95 | a non-empty last HTML text is the body |
| MessageBody.PlainFallback | services/fetchEmailBody.go:124-126 | with no HTML text, the body is the last plain text |
| MessageBody.FetchBodyFailures | services/fetchEmailBody.go:41-65 | once the fetch succeeds, a missing message, a missing body section, an unreadable body and a parse failure each give their own error, each exactly in its case |
| MessageBody.StarReadsNewest | services/fetchEmailBody.go:30-44 | a request for UID 0 returns the newest message's body, as a request for its own UID does |
| MessageBody.CheckEmailExists | services/fetchEmailBody.go:141-179 | a failed connection and a failed SELECT each give their own error, exactly in their case; true only after a successful SELECT; the only other error is a failed search |
| MessageBody.CheckEmailExistsIsListSearch | services/fetchEmailBody.go:159-179 | with both ids given, the check runs the same From/To header search as the message list: it fails exactly when that search fails, and is true exactly when it finds messages; a non-empty list implies true |
| MessageBodyLegacy.WalkParts | services/email_services.go:587-630 | the older part loop meets its specification functions |
| MessageBodyLegacy.FetchPlainTextEmailBody | services/email_services.go:543-642 | the older procedure returns exactly what its `FetchBody` specifies, UID 0 standing for the highest UID |
| MessageBodyLegacy.StarReadsNewest | services/email_services.go:549-551 | in the older copy too, a request for UID 0 reads the newest message |
| MessageBodyLegacy.AgreesWithCurrent | services/email_services.go:608-635 | when every image read has data, both readers capture the same media, and with a text body they give the same result |
| MessageBodyLegacy.EmptyImageDiffers | services/email_services.go:618-628 | an empty image is captured by the older reader and never by the current one |
| MessageBodyLegacy.ImagesOnlyIsError | services/email_services.go:637-639 | without a text body the older reader reports an error and still returns the captured images |
| AttachmentFetch.NameOf | services/fetchAttachment.go:95 | the current copy matches on the disposition filename only; the older one falls back to the content-type name |
| AttachmentFetch.Lookup | services/fetchAttachment.go:83-110 | the walk fails only with a missing attachment, an unreadable part or an unreadable body |
| AttachmentFetch.RetrieveChecksInOrder | services/fetchAttachment.go:52-80 | fetch error, missing message, missing body, parse failure and not multipart are checked in that order; the walk is reached exactly for a multipart body |
| AttachmentFetch.FindPart | services/fetchAttachment.go:83-107 | the NextPart loop returns exactly what `Lookup` specifies |
| AttachmentFetch.FetchAttachment | services/fetchAttachment.go:22-111 | the procedure returns exactly what `Retrieve` specifies, UID 0 standing for the highest UID |
| AttachmentFetch.StarSearchesNewest | services/fetchAttachment.go:40-41 | a request for UID 0 looks for the attachment in the newest message |
| AttachmentFetch.FirstMatchWins | services/fetchAttachment.go:97-105 | the first matching part decides, returning its data and own name (or its read error), whatever follows |
| AttachmentFetch.ErrorBeforeMatchAborts | services/fetchAttachment.go:88-91 | an unreadable part ahead of any match ends the search with an error even if a later part matches |
| AttachmentFetch.NoMatchMissing | services/fetchAttachment.go:109-110 | when every part is read and none matches, the attachment is reported missing |
| AttachmentFetch.LookupSound | services/fetchAttachment.go:94-106 | a success returns the body of an attachment or inline part whose name equals the requested one up to case; every earlier part was read and did not match |
| AttachmentFetch.ReturnedNameFolds | services/fetchAttachment.go:105 | the name returned equals the requested name up to case, and may differ in case |
| AttachmentFetch.SinglePartNeverYields | services/fetchAttachment.go:76-80 | a message that is not multipart never yields an attachment |
| AttachmentFetch.VersionsAgree | services/email_services.go:706-714 | the two copies agree on a part with a lower-case disposition and a disposition filename |
| AttachmentFetch.DisposedAgree | services/email_services.go:713 | on a lower-case disposition, the exact and the case-blind tests agree |
| AttachmentFetch.CtNameOnlyInLegacy | services/email_services.go:707-711 | a part named only by its content-type `name` is found by the older copy and passed over by the current one |
| TableList.HeaderCriteria | services/fetchTableList.go:43-49 | there is a From key exactly when the sender is non-empty, and a To key exactly when the filter is non-empty |
| TableList.Collect | services/email_services.go:473-502 | the older loop keeps the messages with both headers whose To contains the filter ignoring case, in fetch order |
| TableList.FetchEmailsLegacyRun | services/email_services.go:415-510 | the older procedure returns exactly what `FetchEmailsLegacy` specifies |
| TableList.CollectedSound | services/fetchTableList.go:84-111 | every row comes from a kept message |
| TableList.CollectedComplete | services/fetchTableList.go:84-111 | every kept message has its row |
| TableList.RowsMatchFilter | services/email_services.go:483-485 | every row of the older list has a recipient that contains the filter, ignoring case |
| TableList.ListingSortedPermutation | services/fetchTableList.go:135-143 | the list is ordered latest first and is a permutation of the rows |
| TableList.FetchEmails | services/fetchTableList.go:18-147 | connection, SELECT and empty-mailbox failures each exactly in their case; a FETCH error only when the FETCH fails; a list is ordered latest first |
| TableList.FetchAllDoctorsOfPatient | services/fetchTableList.go:149-279 | the same failures, each exactly in its case; a list is ordered latest first |
| TableList.FetchEmailsLegacy | services/email_services.go:415-510 | the same failures, each exactly in its case |
| TableList.ListRows | services/fetchTableList.go:122-143 | the append loop, the in-place `sort.Slice` and the copy-out loop give the rows of the messages latest first, the same rows as `Listing` |
| TableList.FetchEmailsRun | services/fetchTableList.go:18-147 | the procedure fails exactly as `FetchEmails` does, with the same error, and otherwise returns its rows latest first |
| TableList.FetchAllDoctorsOfPatientRun | services/fetchTableList.go:149-279 | the procedure fails exactly as `FetchAllDoctorsOfPatient` does, with the same error, and otherwise returns its rows latest first |
| Seqs.SortInPlace | services/fetchTableList.go:135-137 | `sort.Slice` latest first, in place: the array ends non-increasing by key and holds the same elements |
| Seqs.SinkLast | services/fetchTableList.go:135-137 | one insertion step extends the sorted prefix by one element, keeping the contents |
| Seqs.SwapDown | services/fetchTableList.go:135-137 | an exchange of neighbours moves only those two and keeps the contents |
| TableList.FetchEmailsOutcome | services/fetchTableList.go:37-58 | an empty mailbox is an error, a search that finds nothing is an empty list, and any other list is the rows of the found messages, latest first |
| TableList.AllDoctorsWithoutFilter | services/fetchTableList.go:173-189 | without a filter, every listable message of the mailbox is listed |
| TableList.LegacySameRowsWithoutFilter | services/email_services.go:437-457 | on the same selection, the current and the older lists hold the same rows in a different order |
| TableList.IdRoundTrip | services/fetchTableList.go:102 | the row id is the decimal UID, which the body and attachment endpoints parse back |
| TableList.RowAttachmentsSound | services/fetchTableList.go:93-95 | every attachment name of a row is non-empty and names an attachment node of the message |
| Dropdown.ExtractMobileNumber | services/fetchDropdownList.go:27-34 | succeeds exactly when there is one '@', returning the text before it; the result has no '@' and, with '@' and the rest, rebuilds the input |
| Dropdown.ExtractIsSplit | services/fetchDropdownList.go:28-32 | the result is the first piece of `strings.Split` at '@' when there are exactly two pieces, else an error |
| Dropdown.EmptySearchEmptyList | services/fetchDropdownList.go:58-60 | a search that finds nothing gives an empty list and no mobile numbers, not an error |
| Dropdown.ExtractOfAddress | services/fetchDropdownList.go:27-34 | an address of a local part and a domain without '@' gives back its local part |
| Dropdown.NormalizeIdempotent | services/fetchDropdownList.go:81 | normalising twice changes nothing |
| Dropdown.ContactAt | services/fetchDropdownList.go:79-83 | the k-th contact is the k-th recipient, normalised, with the message's date |
| Dropdown.RecipientsOfMessage | services/fetchDropdownList.go:75-77 | a message without an envelope or recipients contributes nothing |
| Dropdown.NoteRecipients | services/fetchDropdownList.go:79-89 | the inner loop adds each new non-empty address once with its first date, and records it as seen |
| Dropdown.CollectContacts | services/fetchDropdownList.go:74-90 | the outer loop builds the first contact of every address, and the set of addresses met |
| Dropdown.FetchEmailIDsRun | services/fetchDropdownList.go:37-104 | the procedure returns exactly what `FetchEmailIDs` specifies |
| Dropdown.AddressesOf | services/fetchDropdownList.go:98-101 | the conversion loop lists the addresses in list order |
| Dropdown.EmailsSeen | services/fetchDropdownList.go:85-86 | the set of addresses met is exactly the non-empty normalised addresses of the stream |
| Dropdown.FirstContactsCover | services/fetchDropdownList.go:85-88 | every address met is listed, and only those |
| Dropdown.FirstContactsDistinct | services/fetchDropdownList.go:85-88 | no address is listed twice |
| Dropdown.FirstContactsAreFirst | services/fetchDropdownList.go:85-88 | each listed contact carries the date of the address's first occurrence |
| Dropdown.RecipientListCorrect | services/fetchDropdownList.go:74-101 | each non-empty recipient address is listed exactly once, latest first by the date it was first met |
| Dropdown.MobileOf | services/fetchDropdownList.go:120-130 | a mobile number an entry yields never contains '@' |
| Dropdown.UniqueMobiles | services/fetchDropdownList.go:119-136 | the loop builds exactly the set of mobile numbers of the admitted entries |
| Dropdown.MobilesMeaning | services/fetchDropdownList.go:119-142 | a number is listed exactly when some admitted entry splits into it and a domain; no listed number contains '@' |
| Dropdown.MobileOfExcludes | services/fetchDropdownList.go:123-129 | the sender's own address never contributes, nor does an address without exactly one '@' |
| Dropdown.GetUniqueRecipients | services/fetchDropdownList.go:106-152 | fails exactly when `FetchEmailIDs` fails, with its error; no number listed contains '@' |
| DropdownLegacy.NoteEmails | services/email_services.go:367-375 | the older inner loop adds the normalised non-empty recipients to the set |
| DropdownLegacy.CollectEmails | services/email_services.go:361-376 | the older outer loop collects exactly the addresses of the stream |
| DropdownLegacy.FetchEmailIDsRun | services/email_services.go:319-386 | the older procedure returns exactly what its `FetchEmailIDs` specifies |
| DropdownLegacy.KeyOfEntry | services/email_services.go:805-808 | one turn normalises the entry and drops it when empty or the sender |
| DropdownLegacy.UniqueRecipients | services/email_services.go:804-814 | the older loop builds exactly the normalised admitted entries, in any listing order |
| DropdownLegacy.StreamNormalized | services/email_services.go:368-369 | every collected address is already normalised |
| DropdownLegacy.KeyOfNormalized | services/email_services.go:805-808 | a normalised non-empty address is kept unless it is the sender's |
| DropdownLegacy.ExcludesOnlySender | services/email_services.go:802-814 | the older `GetUniqueRecipients` drops exactly the sender's address from the fetched set |
| DropdownLegacy.GetUniqueRecipients | services/email_services.go:791-830 | fails exactly when its `FetchEmailIDs` fails, with its error; no listed address is empty or the user's own |
| DropdownLegacy.SameRecipientsAsCurrent | services/email_services.go:319-386 | both copies of `FetchEmailIDs` fail alike and on success return the same addresses |
| SenderName.GenerateOTP | services/email_service.go:34-40 | the code is six decimal digits spelling the draw |
| SenderName.OtpInjective | services/email_service.go:36-37 | different draws give different codes |
| SenderName.Window | services/email_service.go:80-82 | at most the last ten numbers are kept; ten or fewer are kept unchanged |
| SenderName.Display | services/email_service.go:100 | the displayed name has the length of the personal name |
| SenderName.FirstNameAppend | services/email_service.go:95-107 | the scan over two lists is the scan of the first, else of the second |
| SenderName.ScanSenders | services/email_service.go:95-107 | the loops return the display name of the first From address that names the user, in fetch and header order |
| SenderName.FetchFromNameByEmailRun | services/email_service.go:43-118 | the procedure returns exactly what `FetchFromNameByEmail` specifies |
| SenderName.FirstNameSound | services/email_service.go:99-103 | a name found is the display name of an address naming the user, with no earlier such address |
| SenderName.FoundNameNonEmpty | services/email_service.go:99 | a name that is found is never empty |
| SenderName.FirstNameNone | services/email_service.go:95-107 | no name is found exactly when no address names the user |
| SenderName.EmptyMeansNoMatch | services/email_service.go:110-117 | after a successful fetch, "" is returned exactly when no fetched From address names the user |
| SenderName.NoMessagesNoName | services/email_service.go:71-76 | a failed or empty search gives "" without error |
| SenderName.FetchErrorAfterScan | services/email_service.go:95-113 | the messages are read before the FETCH error is looked at: the lookup fails exactly when the FETCH fails and no streamed message names the user, and a name among them is returned |
| SenderNameLegacy.ScanNewestFirst | services/email_services.go:285-312 | the older loop scans from the last number to the first and stops at the first name |
| SenderNameLegacy.FetchFromNameByEmailRun | services/email_services.go:246-317 | the older procedure returns exactly what its `FetchFromNameByEmail` specifies |
| SenderNameLegacy.NewestNameWins | services/email_services.go:285-306 | the newest message that gives a name decides |
| SenderNameLegacy.FallsBackToAddress | services/email_services.go:314-316 | with no naming address, the user's own address is returned |
| SenderNameLegacy.FallbackDiffers | services/email_services.go:278-281 | on an empty search the older copy returns the address and the current one "" |
| AccessStore.AccessValueFirstMatch | services/mongoDBEmailCheck.go:73-83 | `NOT_FOUND` exactly for a pair without records, else the first record's value verbatim |
| AccessStore.Database.constructor | services/mongoDBEmailCheck.go:15-16 | the store starts with the given collections and faults |
| AccessStore.Database.GetPatientByMobile | services/checkPatientDataMongo.go:71-95 | the first patient with the mobile; None on a miss; an error only when the query fails |
| AccessStore.Database.FindAccess | services/mongoDBEmailCheck.go:73-78 | FindOne returns the first matching record, or none |
| AccessStore.Database.UpdateAccess | services/mongoDBEmailCheck.go:91-116 | UpdateOne sets the first matching record only, and reports 1 exactly when it changed a value |
| AccessStore.Database.InsertAccess | services/mongoDBEmailCheck.go:119-127 | InsertOne appends the record; a failure changes nothing |
| AccessStore.Database.InsertPatient | controllers/patientDBhandler.go:118-122 | InsertOne appends the patient; a failure changes nothing |
| AccessStore.Database.CheckAccessValue | services/mongoDBEmailCheck.go:58-84 | the first record's HasAccess word for word, `NOT_FOUND` on a miss, an error only when the query fails |
| AccessStore.Database.FetchPatientWithDoctorAccess | services/mongoDBEmailCheck.go:15-54 | no patient on a miss or a failed query; otherwise the patient, with access true exactly when the first record of the pair reads "Y" |
| AccessStore.Database.UpdateAccessIfExists | services/mongoDBEmailCheck.go:86-135 | flips the pair's first "N" record to "Y", else inserts a "Y" record; a failure leaves the collection as it was |
| AccessStore.Database.CheckRecordExists | services/email_services.go:389-412 | true exactly when a record for the pair exists; a failed query reads as false |
| AccessStore.GrantedHasAccess | services/mongoDBEmailCheck.go:91-127 | after the update, the pair has a "Y" record |
| AccessStore.GrantedChangesOnlyThePair | services/mongoDBEmailCheck.go:91-133 | at most one record is added, records of other pairs keep place and value, and nothing is added exactly when an "N" record existed |
| AccessStore.GrantedAgainInserts | services/mongoDBEmailCheck.go:119-127 | with no "N" record, each call inserts another "Y" record: the update is not idempotent in record count |
| PatientHandler.ValidEmailFormatIsPattern | controllers/patientDBhandler.go:72 | the scan accepts exactly the strings `^[^\s@]+@[^\s@]+\.[^\s@]+$` matches |
| PatientHandler.ScanMatches | controllers/patientDBhandler.go:72 | a string the scan accepts matches the pattern |
| PatientHandler.PatternScans | controllers/patientDBhandler.go:72 | a string matching the pattern is accepted by the scan |
| PatientHandler.CheckPatient | controllers/patientDBhandler.go:21-48 | a missing mobile or doctor id is rejected before any lookup; then not-found, or the patient with the access flag |
| PatientHandler.CheckDoctorAccess | controllers/patientDBhandler.go:212-229 | missing ids are rejected before the lookup; then the stored value or `NOT_FOUND`, or a query error |
| PatientHandler.UpdateAccess | controllers/patientDBhandler.go:233-267 | a body without both ids is a 400 and changes nothing; success is a 200 after the grant; a store failure is a 500 |
| PatientHandler.StorePatient | controllers/patientDBhandler.go:107-176 | the upsert, call by call on the database, leaves the result and the two collections that `Store` specifies; only the collections change |
| PatientHandler.SavePatient | controllers/patientDBhandler.go:50-209 | the step-by-step handler ends with the reply, collections and mail that `Save` specifies |
| PatientHandler.SaveRejectsEarly | controllers/patientDBhandler.go:61-92 | a body that does not bind, a malformed non-empty e-mail or a missing configuration is rejected before the store is touched |
| PatientHandler.EmptyEmailAccepted | controllers/patientDBhandler.go:73 | an empty e-mail passes the format check |
| PatientHandler.NewPatientSaved | controllers/patientDBhandler.go:107-136 | a new mobile appends the patient, then the access record (doctor, mobile, requested value); success exactly when no call fails |
| PatientHandler.ExistingPatientSaved | controllers/patientDBhandler.go:137-176 | a known patient: a missing record is appended; an existing one changes only in the pair's first record and only when the value differs |
| PatientHandler.SavedAccessIsRead | controllers/patientDBhandler.go:107-176 | after a successful save, the pair's first record holds the requested value, provided the patient was known or the pair had no record |
| PatientHandler.OlderRecordShadowsNewPatient | controllers/patientDBhandler.go:107-136 | without that proviso the property fails: a new mobile whose pair already has a record gets a second one, and lookups read the older |
| PatientHandler.RegistrationOnlyForNewContacts | controllers/patientDBhandler.go:178-206 | a registration mail is asked for exactly on success with no mail between the two, addressed to mobile + domain, from the session name or "Doctor" |
| PatientHandler.RegistrationRecipient | controllers/patientDBhandler.go:95 | a domain with its '@' makes the patient e-mail id the recipient unchanged |
| Recipients.LookupName | services/checkPatientDataMongo.go:80-88 | a name exactly when the query succeeds and finds a patient, the first one's name |
| Recipients.NameFor | services/checkPatientDataMongo.go:45-62 | the patient's name when found and non-empty, else the mobile number |
| Recipients.EnrichEntry | services/checkPatientDataMongo.go:36-62 | one entry gives nothing without '@', else its `RecipientInfo` named after the patient found by its trimmed mobile number, or after that number |
| Recipients.EnrichRecipients | services/checkPatientDataMongo.go:35-63 | the loop builds exactly the `Enriched` list |
| Recipients.GetEnrichedRecipients | services/checkPatientDataMongo.go:25-66 | an upstream error is passed on; otherwise the enriched list |
| Recipients.WithAt | services/checkPatientDataMongo.go:37-44 | the entries containing '@', in order |
| Recipients.EnrichedPerEntry | services/checkPatientDataMongo.go:35-63 | one row per entry with '@', in input order: the entry itself and its name or trimmed mobile number |
| Recipients.BareEntriesSkipped | services/checkPatientDataMongo.go:37-44 | entries without '@' contribute nothing |
| Recipients.DropdownFeedEnrichesToNothing | services/checkPatientDataMongo.go:37-44 | fed by `GetUniqueRecipients`, the enriched list is always empty |
| Recipients.CorrectedEnrichesEvery | services/checkPatientDataMongo.go:35-63 | corrected: every entry gets one row in input order, and on addresses it agrees with the code as written |
| PdfMail.Truncate | services/generateAndSendPdf.go:119-124 | the result has length min(len, max) and is a prefix of the input |
| PdfMail.TruncateIdempotent | services/generateAndSendPdf.go:119-124 | truncating twice is truncating once; a string that fits is unchanged |
| PdfMail.ChunksShape | services/generateAndSendPdf.go:181-187 | the lines join back into the encoded text; each has 1 to 76 characters, all but the last exactly 76, and there are ⌈n/76⌉ |
| PdfMail.WrapLines | services/generateAndSendPdf.go:180-187 | the builder loop writes each line followed by CRLF |
| PdfMail.FramedChars | services/generateAndSendPdf.go:186 | besides CRLFs, the wrapped text holds only characters of the encoded text |
| PdfMail.AttachmentTextClean | services/generateAndSendPdf.go:180-188 | the attachment lines hold only base64 characters and CRLFs, with no '-' that could start a boundary |
| PdfMail.AttachmentRoundTrip | services/generateAndSendPdf.go:180-187 | joining the lines and decoding gives back the PDF's bytes |
| PdfMail.BuildMessage | services/generateAndSendPdf.go:158-188 | the builder writes exactly `MessageText` |
| PdfMail.MessageCloses | services/generateAndSendPdf.go:188 | the message ends with CRLF, "--", the boundary and "--", and the attachment text before it has no '-' |
| PdfMail.SubjectLine | services/generateAndSendPdf.go:163 | the Subject is a prefix of the notes of at most 30 characters; the older copy uses its subject argument |
| PdfMail.ReplaceAllAbsent | services/generateAndSendPdf.go:45 | a string without the pattern is left as it is |
| PdfMail.ReplaceCharPointwise | services/generateAndSendPdf.go:49 | replacing one character by another works position by position |
| PdfMail.ReplacePlaceholders | services/generateAndSendPdf.go:43-46 | the loop applies the replacements in the order the keys are visited |
| PdfMail.NoPlaceholderUnchanged | services/generateAndSendPdf.go:34-46 | a template with none of the keys comes out unchanged, whatever the visiting order |
| PdfMail.SafeName | services/generateAndSendPdf.go:49 | every space becomes '_', and nothing else changes |
| PdfMail.PdfFileNameHasNoSpace | services/generateAndSendPdf.go:57 | the PDF file is `OPD_<name>.pdf` with no space left in it |
| PdfMail.GeneratePdfAndSendEmail | services/generateAndSendPdf.go:20-102 | the procedure ends as `Generate` specifies, having compiled the Typst source built from the template |
| PdfMail.DeliverPdf | services/generateAndSendPdf.go:48-99 | from writing the Typst file on, the steps end as `Deliver` specifies, each failure with Go's wrapped error text |
| PdfMail.SendEmailWithAttachment | services/generateAndSendPdf.go:126-208 | the send ends as `SendWithAttachment` specifies, its error unwrapped |
| PdfMail.SendWithAttachment | services/generateAndSendPdf.go:132-207 | a mail is sent only to the recipient; the loader's error comes first, then the body template's, then a nil configuration panics, then the server's refusal |
| PdfMail.BlankFollowupSkips | services/generateAndSendPdf.go:20-102 | a blank follow-up stops the run once the template is read; mail is sent exactly when every step succeeds |
| PdfMail.Replacements | services/generateAndSendPdf.go:34-42 | every placeholder key starts with '#' and has a name after it |
| PdfMail.Deliver | services/generateAndSendPdf.go:48-99 | a run that reaches the Typst file is never skipped, and mail goes only to the recipient |
| PdfMail.Generate | services/generateAndSendPdf.go:20-102 | a missing template fails first with the OS error appended; the run is skipped exactly when the template is read and the follow-up is blank |
| PdfMail.DeliverFailures | services/generateAndSendPdf.go:48-99 | each step's failure ends the run with its exact Go error text, in the order the steps are taken: the Typst write, typst's error and output, the missing or empty PDF at `attachments/OPD_<name>.pdf`, the read-back, then the SMTP loader, body template and server errors wrapped twice; a nil configuration panics; mail is sent exactly when every step succeeds, to the recipient |
| PdfMail.NilConfigPanics | services/generateAndSendPdf.go:191 | after a failed first configuration load, a later run whose PDF is ready panics on the nil configuration |
| RegistrationMail.Recipient | services/sendEmailAddPatient.go:26-28 | the domain is appended exactly when there is no '@' and at least ten characters |
| RegistrationMail.RecipientExtends | services/sendEmailAddPatient.go:26-28 | the recipient is only ever extended, and with a domain carrying '@' appending is idempotent |
| RegistrationMail.TrimmedField | services/sendEmailAddPatient.go:31-38 | a trimmed field has no surrounding white space |
| RegistrationMail.TrimmedIdempotent | services/sendEmailAddPatient.go:31-38 | all six fields the message uses are trimmed, so trimming again changes nothing |
| RegistrationMail.SenderName | services/sendEmailAddPatient.go:40-42 | an empty name becomes "Doctor"; a non-empty one is kept; the result is never empty |
| RegistrationMail.JoinLines | services/sendEmailAddPatient.go:66-72 | the message starts with its first header line and a CRLF |
| RegistrationMail.Compose | services/sendEmailAddPatient.go:16-91 | the loader's error is returned wrapped exactly when it reports one; a nil configuration without an error panics; otherwise a mail to the computed recipient |
| RegistrationMail.ComposeFromLine | services/sendEmailAddPatient.go:66 | the message opens with the From line naming the defaulted sender and the trimmed doctor id |
| RegistrationMail.ComposeLayout | services/sendEmailAddPatient.go:45-72 | the message is the From, To, Subject, Date, MIME-Version and Content-Type lines in that order, each ended by CRLF, then a blank line, then the greeting, the Name, Email, Mobile, DOB and Gender lines of the trimmed fields, and the closing |
| EmailControllers.LastDot | controllers/email_controllers.go:111 | the index of the last '.', if any |
| EmailControllers.ValidLoginEmailIsPattern | controllers/email_controllers.go:111 | the scan accepts exactly the strings `^[a-z0-9._%+\-]+@[a-z0-9.\-]+\.[a-z]{2,}$` matches |
| EmailControllers.ScanMatchesLogin | controllers/email_controllers.go:111 | an accepted string matches the pattern |
| EmailControllers.PatternScansLogin | controllers/email_controllers.go:111 | a string matching the pattern is accepted |
| EmailControllers.OtpStore.constructor | controllers/email_controllers.go:112 | the store starts empty |
| EmailControllers.OtpStore.SendOtp | controllers/email_controllers.go:191-218 | the "sendotp" action changes the store and answers as `SendOtpStep` specifies |
| EmailControllers.OtpStore.VerifyOtp | controllers/email_controllers.go:220-276 | the "verifyotp" action changes the store and answers as `VerifyOtpStep` specifies |
| EmailControllers.OtpStore.Login | controllers/email_controllers.go:173-285 | an unparsable form is a 400; then the action chooses send or verify, and any other action is a 400 |
| EmailControllers.DashboardOnlyAfterVerify | controllers/email_controllers.go:173-285 | only a verified code opens a session |
| EmailControllers.SendOtpStores | controllers/email_controllers.go:193-214 | a rejected address leaves the store alone; an accepted one stores a six-digit code expiring in ten minutes, replacing any earlier one, even when sending fails |
| EmailControllers.VerifyOtpLogsInOnlyWithCode | controllers/email_controllers.go:224-263 | the dashboard is reached exactly with the stored code before its expiry, and then the code is removed |
| EmailControllers.ExpiredCodeRefused | controllers/email_controllers.go:237-243 | an expired code is refused even when it is right, and its entry removed |
| EmailControllers.WrongCodeKeepsEntry | controllers/email_controllers.go:245-251 | a wrong, unexpired code keeps the entry for another try |
| EmailControllers.CodeIsSingleUse | controllers/email_controllers.go:254-256 | a code logs in at most once |
| EmailControllers.SessionName | controllers/email_controllers.go:257-263 | the session name is the looked-up name, or the address when the lookup fails or gives "" |
| EmailControllers.ParseUid | controllers/email_controllers.go:436-447 | a missing uid, an invalid one, or the 32-bit value, each exactly in its case |
| EmailControllers.ParseEmailId | controllers/email_controllers.go:473-481 | a value exactly for a decimal below 2^32; an empty value is invalid |
| EmailControllers.ParseUidOfItoa | controllers/email_controllers.go:436-447 | every 32-bit UID in decimal is accepted as itself by both parsers |
| EmailControllers.FollowUpBlank | controllers/email_controllers.go:74 | the follow-up is blank exactly when the date and the time are both blank |
| EmailControllers.PdfRecipientShape | controllers/email_controllers.go:77 | the recipient starts with the mobile number as sent, and for a mobile without '@' its first '@' follows it directly |
| EmailControllers.BlankFollowUpReportsSuccess | controllers/email_controllers.go:74-103 | a blank follow-up is answered with the success reply although no mail is sent |
| EmailControllers.GeneratePdfReply | controllers/email_controllers.go:39-104 | an unbindable body is a 400, a missing session address or name a 401, a failed run a 500 carrying the run's error text, a panicking run an empty 500, each exactly in its case |
| EmailControllers.SendRefusedIs500 | controllers/email_controllers.go:93-100 | when the SMTP server refuses the mail, the reply is a 500 carrying the server's answer |
| ImapConnect.TwoPartsOneColon | config/imapclient.go:27-30 | the split has two parts exactly when the address has one ':' |
| ImapConnect.Client.constructor | config/imapclient.go:38-48 | a client records the dial it came from |
| ImapConnect.Client.StartTls | config/imapclient.go:45-47 | STARTTLS is recorded and its answer returned |
| ImapConnect.Client.Login | config/imapclient.go:57 | the login is recorded; the client is logged in exactly when it succeeds |
| ImapConnect.Client.Logout | config/imapclient.go:58-59 | the logout is recorded, and the client is no longer logged in |
| ImapConnect.ConnectImap | config/imapclient.go:15-76 | the procedure makes the calls and returns the result `Connect` specifies; on success the client is logged in |
| ImapConnect.ChecksBeforeDial | config/imapclient.go:23-30 | a missing setting or an address without exactly one ':' is reported before anything is dialled |
| ImapConnect.PortDispatch | config/imapclient.go:38-48 | 993 dials TLS, 143 dials plain, any other port is rejected without a call |
| ImapConnect.StartTlsOnlyAfterDial | config/imapclient.go:44-47 | STARTTLS is sent only after a successful plain dial |
| ImapConnect.LoginProtocol | config/imapclient.go:50-60 | a failed dial or upgrade never reaches login; a failed login is followed by a logout |
| ImapConnect.ConnectSucceeds | config/imapclient.go:15-76 | success exactly when every check and step succeeds; then the last call is the login and no logout was made |
| SmtpConfig.CheckMissingFields | config/smtp.go:68-87 | "" exactly when the four required values are set; otherwise the marker and the missing names joined by ", " |
| SmtpConfig.MissingNamesInOrder | config/smtp.go:69-86 | the names reported are the required ones with empty values, in the fixed order |
| SmtpConfig.OptionalFieldsIgnored | config/smtp.go:70-81 | SMTP_HOST_ALT, SMTP_SECURITY and DOMAIN are never reported |
| SmtpConfig.OnlyPasswordMissing | config/smtp.go:68-87 | with only the password missing, one name follows the marker |
| SmtpConfig.AllMissing | config/smtp.go:68-87 | with every required value missing, all four names appear in order |
| SmtpConfig.SmtpLoader.constructor | config/smtp.go:27-29 | nothing is loaded yet |
| SmtpConfig.SmtpLoader.LoadSmtpConfig | config/smtp.go:31-65 | the call updates the once-flag and the cache and answers as `Load` specifies |
| SmtpConfig.LoadedOnce | config/smtp.go:32-33 | later calls return the first call's settings whatever the environment then holds; the first call errs exactly on a missing field |
| SmtpConfig.FailedLoadLaterNilNil | config/smtp.go:53-64 | as written, after a failed first load a later call returns neither settings nor an error |
| SmtpConfig.CorrectedLoadAnswers | config/smtp.go:31-65 | corrected: every call returns settings or an error, never neither, and later calls repeat the first answer |

## Left out

- Network, database and mail I/O. These are not executed:
  - the IMAP dial, SELECT, SEARCH and FETCH;
  - Mongo FindOne, UpdateOne and InsertOne;
  - `smtp.SendMail` and gomail.

  The model replaces them with the `Server` value, the `Database` class and its failure set, and outcome parameters.
- Which messages an IMAP SEARCH matches. The server's answer to each criteria value is an input, and only the criteria sent are modelled.
- Concurrency is modelled sequentially:
  - goroutines, channels and `sync.WaitGroup`; the fetch fan-out of `FetchEmails` runs in fetch order;
  - `sync.Map`, modelled as the store map;
  - `sync.Once`, modelled as a flag;
  - the NOOP keep-alive goroutine of `config/imapclient.go:64-71`, left out.
- Ordering that Go leaves unspecified:
  - `sort.Slice` is unstable, so the model promises only a non-increasing order that is a permutation;
  - map iteration order, where the model uses a set or takes the visiting order as an input.
- Time:
  - `time.Now` is a parameter;
  - date formatting (`Jan 02 2006 03:04 PM`, RFC1123Z) is taken as given text or an integer key. In particular the `sortedMessages` loops of services/fetchTableList.go:139-143 and 271-275 are modelled as a plain copy: the rows keep the timestamp and the `Date` text is not rendered.
- Unicode: `strings.ToLower`, `TrimSpace`, `EqualFold` and `Title` are modelled on ASCII only. A Go string is modelled as one character per byte, so lengths such as the 30 characters of `truncate` are byte counts, as in Go.
- Nil slices: Go's JSON encoding writes a nil slice as `null` and an empty one as `[]`. The model has only the empty sequence, so it does not distinguish `FetchEmailIDs` with no kept address, or `GetEnrichedRecipients` with no entry containing '@', from an empty list.
- Nested multiparts: `Imap.Mime` holds one flat list of parts, and both readers walk it.
  - `mail.CreateReader`, used by `FetchPlainTextEmailBody`, descends into nested multiparts and yields their leaves; the list models those leaves.
  - `message.Read` with its MultipartReader, used by `FetchAttachment`, yields only the top-level parts, so a nested multipart is one part to it. For a message with nested multiparts, the model gives `FetchAttachment` the leaves instead.
- A repeating NextPart error: a failed `NextPart` is modelled as one unreadable part followed by the remaining parts. If the reader returns the same error on every call, the `continue` at services/fetchEmailBody.go:75-78 and services/email_services.go:592-595 never leaves the loop. The model always ends.
- Library parsing is taken as already parsed:
  - `mail.CreateReader`, `message.Read`, `mime.ParseMediaType`;
  - go-imap's BODYSTRUCTURE decoding.
- Templates and external tools:
  - `html/template` rendering;
  - the typst compiler;
  - the temporary file writes and removals.

  Their failures are inputs to the model, each carrying the error text Go wraps into its own.
- Path cleaning: `filepath.Join` at services/generateAndSendPdf.go:58 also cleans the path. The model writes `attachments/OPD_<name>.pdf` verbatim, so a patient name holding `/` or `..` gives a path Go would have cleaned.
- Glue without logic:
  - `routes/routes.go`, `middleware/auth.go`, `main.go`, `config/config.go`;
  - the session and cookie middleware;
  - `services/sendOtp.go`;
  - `GeneratePDFFromSelectedValue`.
- `GetReportCollection`, called by the older `CheckEmailExists` at `services/email_services.go:390`, is not part of this model. It is not defined in `config/config.go`. `AccessStore.Database.CheckRecordExists` reads the access collection in its place.
- SenderName.Display: states only the length-preserving shape of `strings.Title(strings.ToLower(name))`. The letter-by-letter behaviour is stated separately by `Ascii.Title` and `Ascii.TitleOnlyChangesCase`.
- PatientHandler.SavedAccessIsRead: holds only when the patient was known or the pair had no record yet. `PatientHandler.OlderRecordShadowsNewPatient` shows that without this proviso the first record can hold an older value.
- PatientHandler.SavePatient: `domain` is None when the SMTP loader reports an error. After a failed first load the loader returns a nil configuration with no error (see Findings). Go dereferences it at controllers/patientDBhandler.go:93 and panics, and gin's recovery middleware (routes/routes.go:16) answers an empty 500. The model has no such case for this handler; `PdfMail.Deliver` and `RegistrationMail.Compose` do model it.
- RegistrationMail.Compose: stops before the send. The error `smtp.SendMail` returns at services/sendEmailAddPatient.go:84-86 is only logged by its caller (controllers/patientDBhandler.go:199-201), and is not modelled.
- Integer widths: UIDs and the OTP draw are unbounded naturals. The only 32-bit bound modelled is the one `ParseUint(s, 10, 32)` enforces.
- UID 0: a request for UID 0 is modelled as `*`, the message with the highest UID. Two things are not modelled:
  - A stored message may carry UID 0 in the model, although a server never assigns it. No request can fetch such a message by its UID.
  - On an empty mailbox, the model answers `*` with no message, giving the not-found error. A server that rejects the command instead would make it Go's fetch error.

## Findings

| source | as written | input that shows it | evidently intended | confidence | as-written member | corrected member |
|---|---|---|---|---|---|---|
| config/smtp.go:31-65 | after a failed first load, `once` never runs again and the cached pointer is nil, so every later call returns a nil config with a nil error | first call with `SMTP_PASSWORD` empty, then any second call | later calls report the first call's error, or return settings | not executed | SmtpConfig.FailedLoadLaterNilNil | SmtpConfig.CorrectedLoadAnswers |
| services/checkPatientDataMongo.go:35-63 | entries without '@' are skipped, but its source `GetUniqueRecipients` of services/fetchDropdownList.go:119-142 returns bare mobile numbers, which never contain '@' | a mailbox with one mail to `9876543210@reportsofme.com`: the drop-down feed is `["9876543210"]` and the enriched list is empty | each bare mobile number is enriched with its patient's name | not executed | Recipients.DropdownFeedEnrichesToNothing | Recipients.CorrectedEnrichesEvery |
