# qr-vcard-web: the text builders

The web application turns three HTML forms into QR codes. Each form handler
in `app.py` first builds a text from the submitted fields, and this project
models those three text builders and proves what they produce.
- The link and e-mail handlers hand their text straight to the QR encoder.
- The contact handler builds a vCard record and writes it to a `.vcf` file.
  It then QR-encodes a URL pointing at that file, not the record itself.

- **Contact card** (`qrcode_vcard`). The name is stripped and required. The
  handler then builds a vCard 3.0 record by appending to a string step by
  step:
  - `BEGIN:VCARD` and `VERSION:3.0`;
  - the structured `N:<lastname>;<name>;;;` line and the `FN:<name>` line;
  - one line per non-empty optional field, in a fixed order:
    `TEL;TYPE=CELL:`, `EMAIL:`, `ORG:`, `TITLE:`, `ADR:`, `URL:`;
  - a `PHOTO;VALUE=URI:<path>` line when a photo was uploaded;
  - `END:VCARD`.

  Lines end with a bare line feed and values are inserted unescaped.
  `VCard.BuildVCard` is the specification function: the assembled record,
  the value of `vcard` after `END:VCARD` has been appended. `VCard.AssembleVCard`
  is a method that mirrors the handler's `vcard += …` statements one by one,
  and it is proved to return exactly what `BuildVCard` returns.
- **Link** (`qrcode_link`). The link and the description are stripped, and
  the link is required. The payload is the link alone, or
  `<description>: <link>`. `Link.LinkPayload` models it.
- **E-mail** (`qrcode_email`). The address and the message are stripped, and
  the address is required. The payload is `mailto:<address>`. When there is
  a message, `?subject=<quoted subject>&body=<quoted message>` follows. These
  are the header fields of section 2 of RFC 6068. The subject is the fixed
  line "Thông tin từ QR". `Mailto.MailtoPayload` models the handler: it
  checks the address and passes the stripped fields to `Mailto.MailtoText`,
  which builds the URI.

Modules:
- `Results`: Option and Result.
- `Text`: Python's `str.strip` over the code points `str.isspace` accepts; joining lines and splitting on a separator character, used to state the record's layout and line count.
- `Percent`: UTF-8 encoding and `urllib.parse.quote` with its default `safe='/'`, plus an inverse used to state round trips.
- `VCard`, `Link` and `Mailto`: the three builders.

A handler that renders an error page is modelled as `Err(message)`, carrying
the Vietnamese message the handler passes to its template. A successful
payload is modelled as `Ok(text)`.

## Model

| member | source | states |
|---|---|---|
| VCard.AssembleVCard | app.py:18-48 | the step-by-step `+=` assembly returns the name error when the stripped name is empty, and otherwise exactly the lines of the record joined by `\n` |
| VCard.HeaderText | app.py:31-33 | the text of the three opening assignments is the four header lines, each followed by a line feed |
| VCard.FieldStep | app.py:34-39 | one guarded `if value: vcard += tag + value + "\n"` adds the field's line to the lines written so far exactly when the value is non-empty |
| VCard.PhotoStep | app.py:41-46 | the guarded photo append adds the `PHOTO;VALUE=URI:` line exactly when a photo was uploaded |
| VCard.EndStep | app.py:48 | appending `END:VCARD` with no line feed turns the terminated lines into the record joined by `\n` |
| VCard.OptionalLinesInSteps | app.py:34-39 | the optional section equals the six guarded appends taken in the handler's order |
| VCard.NameRequiredIff | app.py:18-20 | the result is an error exactly when the name is all whitespace, and then it carries the "name is required" message |
| VCard.PresentFieldsSpec | app.py:34-39 | the list of present fields holds exactly the indices of the non-empty values, each once, in increasing order |
| VCard.OptionalLinesPresent | app.py:34-39 | the optional section has one line per non-empty field, and its j-th line is that field's tag followed by its value, unchanged |
| VCard.CardLayout | app.py:31-48 | every record has 5 lines plus one per non-empty optional field plus one for a photo: the 4 header lines first, then the optional lines in field order with values verbatim, then the photo line when present, and `END:VCARD` last |
| VCard.OptionalFieldPresence | app.py:34-39 | the line of optional field i appears exactly when its value is non-empty, at the position given by the non-empty fields before it |
| VCard.PhotoLineIff | app.py:41-46 | some line starts with `PHOTO;VALUE=URI:` exactly when a photo was uploaded |
| VCard.OptionalLinesSplit | app.py:34-39 | the optional section is the lines of the fields before i, then field i's own line if any, then the lines of the fields after i |
| VCard.OptionalLinesClear | app.py:34-39 | emptying value i removes exactly field i's line from the optional section |
| VCard.AbsentFieldDropsOnlyItsLine | app.py:34-39 | a record whose field i is empty equals the record with that field filled, with field i's line removed and every other line unchanged |
| VCard.RecordFrame | app.py:31-48 | every record starts with `BEGIN:VCARD\nVERSION:3.0\n` followed by the `N` and `FN` lines, ends with `\nEND:VCARD`, and has no trailing line feed |
| VCard.CardLinesNoBreaks | app.py:31-48 | when neither the name written into the record nor any value carried verbatim (last name, optional fields, photo filename) holds a line feed, no line of the record does |
| VCard.RecordLines | app.py:18-48 | when neither the stripped name nor any value carried verbatim holds a line feed, splitting the record on `\n` gives back exactly its lines, so it has 5 + non-empty fields + photo of them; line feeds that strip removes from the name do not matter |
| VCard.UnescapedBreakAddsLines | app.py:34 | values are not escaped: a line feed in the phone number gives the record more lines than it was built from |
| Link.LinkRequiredIff | app.py:67-70 | the result is an error exactly when the link is all whitespace, and then it carries the "link is required" message |
| Link.LinkPayloadCases | app.py:67-72 | with a non-blank link, the payload is the stripped link when the description is blank, and otherwise the stripped description, `": "`, and the stripped link |
| Link.LinkPayloadTrimmed | app.py:67-72 | a payload is non-empty, has no leading or trailing whitespace, and ends with the stripped link |
| Link.LinkPayloadStripInvariant | app.py:67-68 | whitespace around the submitted fields makes no difference to the result |
| Link.LinkPayloadParse | app.py:72 | splitting a payload at its first `": "` gives back the stripped description and link, when the description holds no `": "` and a bare link holds none either |
| Link.LinkPayloadAmbiguous | app.py:72 | without that condition two different forms give the same payload |
| Link.FindSeparator | app.py:72 | the separator search returns the first `": "` at or after the start, or none when there is none |
| Mailto.EmailRequiredIff | app.py:85-89 | the result is an error exactly when the address is all whitespace, and then it carries the "email is required" message |
| Mailto.MailtoCases | app.py:85-96 | with a non-blank address, the URI is `mailto:` and the stripped address when the message is blank, and otherwise that followed by `?subject=`, the quoted subject, `&body=` and the quoted stripped message |
| Mailto.MailtoShape | app.py:91-96 | every URI starts with `mailto:` and the stripped address, which is not encoded; the URI is exactly that when the message is blank |
| Mailto.MailtoTextShape | app.py:91-96 | for any subject, address and message, the URI starts with `mailto:` and the address, and it is nothing more exactly when the message is empty |
| Mailto.MailtoTextWithQuery | app.py:92-94 | with a message, the URI is the address, then `?subject=` with the quoted subject, then `&body=` with the quoted message |
| Mailto.ParseQuery | app.py:92-94 | splitting the header part on `&` and unquoting each `name=value` gives back the subject and the message |
| Mailto.MailtoTextRoundTrip | app.py:91-96 | parsing the URI with the model's reader, which takes the address part verbatim, gives back the address, and the subject and message when there is a message, for any address without `?` |
| Mailto.MailtoRoundTrip | app.py:85-96 | parsing the handler's URI gives back the stripped address and, when the stripped message is non-empty, the fixed subject and that message |
| Text.StripKeeps | app.py:18 | stripping never introduces a character the text did not hold |
| Text.StripEmptyIff | app.py:18 | stripping leaves nothing exactly when the text is all whitespace |
| Text.StripInfix | app.py:18 | the stripped text has no surrounding whitespace and is a slice of the original with only whitespace removed on either side |
| Text.StripSurrounded | app.py:67-68 | stripping whitespace-only padding from a trimmed text gives that text back |
| Text.StripIdempotent | app.py:67-68 | stripping twice is the same as stripping once |
| Text.TrimStartSpec | app.py:18 | the leading strip removes a whitespace-only prefix and leaves a suffix that does not start with whitespace |
| Text.TrimEndSpec | app.py:18 | the trailing strip removes a whitespace-only suffix and leaves a prefix that does not end with whitespace |
| Text.SplitJoin | app.py:31-48 | splitting text joined by a separator gives back the parts, when no part holds the separator |
| Text.SplitJoinCount | app.py:31-48 | splitting joined parts gives as many pieces as there were parts, plus one for each separator inside them |
| Percent.QuoteAlphabet | app.py:92-93 | quoted text uses only unreserved characters, `/`, `%` and hex digits, so it never holds `&`, `=`, `?`, `#` or a space |
| Percent.UnquoteQuote | app.py:92-93 | percent-decoding and then UTF-8-decoding quoted text gives back the original text |
| Percent.DecodeEncode | app.py:92-93 | UTF-8 decoding undoes UTF-8 encoding for every string |
| Percent.QuoteAppend | app.py:92-93 | quoting distributes over concatenation |

## Left out

- Flask plumbing is not modelled: routes, template rendering, reading `request.form` and `request.files`, and `send_file`. A field the browser did not send is modelled as the empty string, and the uploaded file as an optional filename.
- The QR image and its PNG output are not modelled. The QR library is a black box. For the link and e-mail handlers the model stops at the text handed to it. For the contact handler it stops at the assembled record, before the `.vcf` write and the URL that is QR-encoded in its place.
- Saving the uploaded photo and writing the `.vcf` file are not modelled (filesystem side effects). The model stops at the assembled record. It does not model the `.vcf` path or the URL encoded into the contact QR code. As written, the `.vcf` path at app.py:50 refers to an undefined name `static` rather than the string `"static"`, so the handler fails there before any QR code is produced.
- An upload counts as present exactly when its filename is non-empty, which is how the upload object's truth value is defined. The photo path follows POSIX `os.path.join("static", filename)`: an absolute filename replaces the directory. Windows path rules are not modelled.
- `str.strip` is modelled over the code points Python's `str.isspace` accepts. Dafny's `char` excludes lone surrogate code points, so form text containing them is not modelled.
- `urllib.parse.quote` is modelled for its defaults: UTF-8 encoding, `safe='/'` and upper-case hex digits. Its `errors` handling is not needed, because every Dafny `char` encodes.
- Mailto.MailtoRoundTrip: holds only for addresses without `?`, because the address is inserted unencoded and a `?` in it shifts where the header part begins. The model's reader also takes the address part verbatim. It does not percent-decode it, split a `,` list of addresses, or cut off a `#` fragment, as a reader following section 2 of RFC 6068 would. So the round trip says nothing about how such a reader treats an address holding `%`, `,` or `#`, which the handler also inserts unencoded.
- VCard.RecordLines: holds only when the stripped name, the last name, the optional fields and the photo filename hold no line feed, because these are written unescaped; VCard.UnescapedBreakAddsLines shows what happens otherwise. Line feeds around the name, which strip removes, are allowed.
- Link.LinkPayloadParse: holds only when the description holds no `": "`, because the payload has no escaping either; Link.LinkPayloadAmbiguous shows two forms that collide.
- The records are not checked against RFC 2426. The model follows the code: bare line feeds instead of CRLF, no escaping of `,` `;` `\`, no line folding, and the photo given as a relative path rather than as embedded data. It also follows the code's templates rendering errors, where a plain HTTP error might have been expected.
