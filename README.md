# Legis Pro chat page, modelled in Dafny

Legis Pro is a single-page Streamlit application (`streamlit_app.py`). A user
logs in with a shared password. They upload a PDF or an Excel sheet, whose text
becomes the *document context* of the session. They open numbered
conversations ("Conversazione 1", "Conversazione 2", ...) and ask questions.
Each question is sent to a chat-completion model together with:

- the document context;
- a *tone directive*, an editable style instruction with a fixed Italian
  default;
- the whole conversation.

This project models the logic of that page in Dafny and proves what it does:

- `wrappers.dfy`, module `Wrappers`: the `Option` type.
- `text.dfy`, module `Text`: the Python string operations the page relies on.
  These are `sep.join`, `split` on one character, `strip` with the whitespace
  set of `str.isspace`, ASCII `lower`, and the decimal numeral an f-string
  prints. Each comes with its laws: split undoes join, strip leaves the infix
  between the leading and trailing whitespace, strip is idempotent, and
  parsing undoes printing.
- `extraction.dfy`, module `Extraction`: the document extractor.
  - A PDF is its page texts joined by newlines.
  - A spreadsheet is cleaned cell by cell, loses its all-blank rows, and
    becomes one `|`-separated line per row, the lines joined by newlines.
  - The extension after the last dot, lower-cased, chooses between the two.
- `conversation.dfy`, module `Conversation`: messages, conversations, the
  generated names, the lookup of the selected conversation, and the exchange
  a question appends.
- `request.dfy`, module `RequestAssembly`: the request built for the model.
  It holds an optional system message with the document, then an optional
  system message with the tone, then the conversation. A parser reads the
  three back.
- `session.dfy`, module `SessionState`: the session record as a class
  `Session` whose methods are the page's events. These are login, upload, new
  conversation, select, save and reset tone, and submit. A short visit built
  from those events checks the request the model receives.

The session invariant has two parts, both proved to hold after every event:

- conversation *n* is named "Conversazione *n*";
- no conversation holds a system message.

A selected name that belongs to an existing conversation stays so. Together
they show the lookup at line 142 always finds the selected conversation, so
the page never raises there.

## Model

| member | source | states |
|---|---|---|
| Text.Join | streamlit_app.py:72 | `sep.join(parts)`: the parts in order with one separator between neighbours (used at lines 72 and 96-97) |
| Text.Split | streamlit_app.py:78 | `name.split('.')` gives at least one piece, no piece holds the separator, and joining the pieces back with the separator gives the name |
| Text.JoinSnoc | streamlit_app.py:72 | joining one more part appends exactly one separator and that part |
| Text.JoinSpans | streamlit_app.py:72 | in a join, each part occupies its own span at its offset; one separator follows every part but the last, and the text ends right after the last part |
| Text.JoinLength | streamlit_app.py:72 | a join is as long as its parts plus one separator per gap |
| Text.JoinAvoids | streamlit_app.py:96-97 | a character in neither the separator nor any part is not in the join |
| Text.SplitWithoutSeparator | streamlit_app.py:78 | a text without the separator splits into itself alone |
| Text.SplitPrefix | streamlit_app.py:78 | splitting `p + c + s` with `p` free of `c` gives `p` followed by the pieces of `s` |
| Text.SplitOfJoin | streamlit_app.py:96-97 | splitting a join on its one-character separator gives the parts back when no part holds that character |
| Text.LastPiece | streamlit_app.py:78 | the last piece of a split is the text after the last separator, or the whole text when there is none |
| Text.SpaceRunFrom | streamlit_app.py:92 | the run of whitespace counted forwards from a position stays inside the text |
| Text.SpaceRunBefore | streamlit_app.py:92 | the run of whitespace counted backwards from a position does not pass the start |
| Text.SpaceRunFromSpec | streamlit_app.py:92 | the forward run is all whitespace and stops at a non-whitespace character or the end |
| Text.SpaceRunBeforeSpec | streamlit_app.py:92 | the backward run is all whitespace and stops at a non-whitespace character or the start |
| Text.LeadingSpaceSpec | streamlit_app.py:92 | the leading whitespace is all whitespace and is followed by a non-whitespace character or the end |
| Text.TrailingStartSpec | streamlit_app.py:92 | the trailing whitespace is all whitespace and is preceded by a non-whitespace character or the start |
| Text.LeadingBeforeTrailing | streamlit_app.py:92 | the leading whitespace ends before the trailing whitespace begins exactly when the text has a non-whitespace character |
| Text.TrimInfix | streamlit_app.py:92 | `strip()` returns the infix between the leading and the trailing whitespace, which starts and ends with a non-whitespace character |
| Text.TrimEmpty | streamlit_app.py:92-93 | `strip()` returns "" exactly when the text is all whitespace |
| Text.TrimIdempotent | streamlit_app.py:92-99 | stripping a stripped text changes nothing |
| Text.Trim | streamlit_app.py:92 | `strip()`: the text between the leading and the trailing whitespace, or "" when the text is all whitespace |
| Text.Lower | streamlit_app.py:78 | `lower()` leaves no ASCII capital and matches its input up to ASCII case |
| Text.LowerUnique | streamlit_app.py:78 | a capital-free text that matches the input up to case is its lower-cased form, so the two facts above fix `lower()` |
| Text.LowerEqualsIff | streamlit_app.py:78-79 | lower-casing gives a capital-free text such as "pdf" exactly when the input matches it up to case, both directions |
| Text.LowerIdempotent | streamlit_app.py:78 | lower-casing twice is lower-casing once |
| Text.NatToString | streamlit_app.py:109 | the decimal numeral of a count is non-empty and made of digits |
| Text.ParseNatToString | streamlit_app.py:109 | reading a rendered numeral back gives the number |
| Extraction.PdfText | streamlit_app.py:70-73 | the PDF text: the page texts joined by newlines |
| Extraction.PdfTextShort | streamlit_app.py:70-73 | a PDF without pages gives "", and a one-page PDF gives that page's text |
| Extraction.PdfTextAddPage | streamlit_app.py:72 | one more page adds a newline and that page's text at the end |
| Extraction.PdfTextPageAt | streamlit_app.py:72 | page k's text stands at its offset; a newline follows it unless it is the last page, where the text ends |
| Extraction.PdfTextLength | streamlit_app.py:72 | the text is as long as the pages plus one newline per gap |
| Extraction.PdfTextTwoPages | streamlit_app.py:70-73 | the pages "Hello" and "World" give "Hello\nWorld" |
| Extraction.CleanRow | streamlit_app.py:90-94 | one row of the cleaned table: every cell cleaned |
| Extraction.CleanTable | streamlit_app.py:90-94 | the cleaned table: every row cleaned, no row dropped |
| Extraction.HasContent | streamlit_app.py:99 | the row filter: some field is non-empty after stripping |
| Extraction.CleanCell | streamlit_app.py:90-94 | a cleaned cell is the stripped cell: the whitespace-to-"" replacement after the strip never changes anything |
| Extraction.HasContentIff | streamlit_app.py:99 | the row filter holds exactly when some cell is non-empty after stripping |
| Extraction.RowKeptIff | streamlit_app.py:90-99 | a cleaned row passes the filter exactly when the raw row has a cell with a non-whitespace character |
| Extraction.KeptIndices | streamlit_app.py:96-100 | the positions of the rows that pass the filter: each position in range, in increasing order, and a position is listed exactly when its row passes |
| Extraction.SheetLines | streamlit_app.py:90-100 | the lines of the sheet text: for each cleaned row that passes the filter, in order, its cells joined by bars |
| Extraction.SheetText | streamlit_app.py:96-101 | the sheet text: those lines joined by newlines |
| Extraction.SheetLinesSpec | streamlit_app.py:88-101 | the sheet's lines are, in row order, exactly the rows with some non-whitespace character, each its cleaned cells joined by bars |
| Extraction.LineRoundTrip | streamlit_app.py:96-97 | when no cleaned cell holds a newline or a bar, a line holds no newline and splits on bars into its row's cleaned cells |
| Extraction.SheetTextRoundTrip | streamlit_app.py:96-101 | under the same condition, splitting the sheet text on newlines gives the lines and splitting each line on bars gives the cells |
| Extraction.Extension | streamlit_app.py:78 | the lower-cased text after the last dot of the name, or the whole lower-cased name when it has no dot |
| Extraction.Classify | streamlit_app.py:78-86 | "pdf" chooses the PDF extractor, "xlsx" or "xls" the spreadsheet extractor, anything else neither |
| Extraction.ClassifySpec | streamlit_app.py:78-86 | a name goes to the PDF extractor exactly when its last dot-separated piece is "pdf" up to ASCII case, and to the spreadsheet extractor exactly when it is "xlsx" or "xls" up to case |
| Extraction.ExtensionOf | streamlit_app.py:78 | the extension of `stem.ext` is `ext` lower-cased, whatever dots the stem holds |
| Extraction.ExtensionWithoutDot | streamlit_app.py:78 | a name without a dot is its own extension, lower-cased |
| Extraction.ClassifyUpperCasePdf | streamlit_app.py:78-79 | "Verbale.PDF" goes to the PDF extractor |
| Extraction.ClassifyPdf | streamlit_app.py:78-79 | "verbale.pdf" goes to the PDF extractor |
| Extraction.ClassifyManyDots | streamlit_app.py:78-86 | "dati.2024.Xlsx" goes to the spreadsheet extractor: only the part after the last dot counts |
| Extraction.ClassifyXls | streamlit_app.py:78-86 | "archivio.xls" goes to the spreadsheet extractor |
| Extraction.ClassifyText | streamlit_app.py:78-86 | "nota.txt" goes to neither extractor |
| Extraction.ClassifyBareName | streamlit_app.py:78-79 | the dotless name "pdf" goes to the PDF extractor |
| Conversation.ChatId | streamlit_app.py:109 | the name of the n-th conversation is "Conversazione " followed by a numeral that reads back as n |
| Conversation.ChatIdInjective | streamlit_app.py:109 | two counters give the same name exactly when they are equal |
| Conversation.SequentialIdsDistinct | streamlit_app.py:108-111 | under sequential naming no two conversations share a name, and the n-th name is found only at position n - 1 |
| Conversation.NewChatFresh | streamlit_app.py:109-110 | the name given to a new conversation is not yet taken, and appending the empty conversation keeps the list well formed |
| Conversation.FindChat | streamlit_app.py:142 | the lookup gives the first position holding the name, or nothing exactly when no conversation has that name |
| Conversation.WithExchange | streamlit_app.py:152-185 | an exchange keeps the name and the earlier messages, then adds the user's question and, when the model answered, the assistant's answer |
| Conversation.ExchangeKeepsInvariant | streamlit_app.py:152-185 | appending an exchange to one conversation keeps the list well formed |
| RequestAssembly.DocumentMessage | streamlit_app.py:159-163 | the system message that gives the document text as context, between the Italian instruction and a blank line |
| RequestAssembly.ToneMessage | streamlit_app.py:165-170 | the system message "ISTRUZIONE PRIORITARIA: " followed by the tone directive |
| RequestAssembly.DocumentMessageRoundTrip | streamlit_app.py:159-163 | the document message carries the document prefix, the text and a blank line; the text reads back, and it is never taken for a tone message |
| RequestAssembly.ToneMessageRoundTrip | streamlit_app.py:165-170 | the tone message carries the priority prefix and the directive; the directive reads back, and it is never taken for a document message |
| RequestAssembly.SystemMessages | streamlit_app.py:157-170 | one system message per non-empty setting, the document message first and the tone message last |
| RequestAssembly.Request | streamlit_app.py:157-172 | `messages_for_api`: the document message if there is document text, the tone message if there is a directive, then the conversation |
| RequestAssembly.RequestWithContext | streamlit_app.py:157-172 | with both a document and a tone the request is the document message, the tone message, then the conversation |
| RequestAssembly.RequestRoundTrip | streamlit_app.py:157-172 | reading a request back gives the document text, the tone directive and the conversation it was built from, when the conversation holds no system message |
| RequestAssembly.RequestInjective | streamlit_app.py:157-172 | two such requests are equal only when their document, tone and conversation are |
| RequestAssembly.AssembleRequest | streamlit_app.py:157-172 | the step-by-step appends build the request, whose length is the system messages plus the conversation and which ends with the conversation |
| SessionState.RouteOf | streamlit_app.py:139-150 | a question that gets through reaches a conversation that exists |
| SessionState.RouteSpec | streamlit_app.py:139-150 | nothing happens without a selection; the lookup fails exactly when no conversation has the selected name; an empty input does nothing; otherwise the question reaches the first conversation with that name, no earlier one holding it, which under sequential naming is the n-th for the n-th name |
| SessionState.Session.constructor | streamlit_app.py:10-57 | a fresh session is not authenticated and has no conversations, no selection, no document text and the default tone |
| SessionState.Session.Authenticate | streamlit_app.py:13-24 | the session unlocks exactly when the password equals the configured secret |
| SessionState.Session.UploadFile | streamlit_app.py:77-102 | a PDF or spreadsheet replaces the document text by its extracted text; when the library raises, and for any other extension, the text stays |
| SessionState.Session.NewConversation | streamlit_app.py:108-111 | appends an empty conversation named after the new count, selects it, and the name was not taken before |
| SessionState.Session.SelectConversation | streamlit_app.py:113-115 | clicking conversation k selects its name |
| SessionState.Session.SaveTone | streamlit_app.py:132-133 | the edited directive becomes the tone |
| SessionState.Session.ResetTone | streamlit_app.py:134-135 | the tone goes back to exactly the default text |
| SessionState.Session.Submit | streamlit_app.py:139-185 | follows `RouteOf`. On the first three routes nothing changes. Otherwise it appends the question, sends the document, the tone and the conversation with the question, and appends the answer if the stream delivers one. The invariant and a resolving selection are kept, and with a resolving selection the lookup never fails |
| SessionState.StartWithPdf | streamlit_app.py:47-84 | after login and the upload of pages "Hello" and "World" the document text is "Hello\nWorld" and the tone is the default |
| SessionState.OpenFirstConversation | streamlit_app.py:108-115 | creating and selecting the first conversation leaves one empty, selected conversation |
| SessionState.AskFirstQuestion | streamlit_app.py:150-185 | a question submitted to the only, empty and selected conversation is routed to it and that conversation becomes the exchange of the question and the answer; the request is the document and tone context followed by the question alone. The document and tone are left as they were |
| SessionState.AskAboutUploadedPdf | streamlit_app.py:157-172 | asking "What is X?" then sends the document message for "Hello\nWorld", the default tone message and the question, in that order |

## Left out

- Rendering: page layout, logo, titles, sidebar widgets, the messages shown on screen, and Streamlit's rerun of the whole script on each interaction. Each event is one method call. An uploaded file is read once, not again on every rerun. In the source the file stays in the uploader, so a PDF or spreadsheet whose library call raises (line 84 or 88) raises again on every rerun and lines 106-185 cannot be reached until the file is removed. The model instead reports `ParseFailed` and lets the visit go on.
- The `show_tone_settings` toggle (lines 58-59, 118-122) only shows or hides the tone editor. Save and reset are modelled as if the editor were open.
- The `messages` session entry (lines 63-64) is never used.
- The second initialisation of the tone at lines 60-62 can never run. Line 56 already set the tone, to the same text.
- The Italian locale (lines 27-33), the page configuration and the image are not modelled.
- Reading the password from the secrets store: the secret is a parameter of `Authenticate`.
- The PDF library and the spreadsheet library. This includes temporary files, `read_excel` taking the header row as column names, and `str(x)` on cell values. Their results, page texts and data rows of strings, are parameters. `None` stands for a library call that raises.
- The file uploader's own restriction to pdf, xlsx and xls. The model dispatches on the name alone.
- The chat-completion client, its model name and its streaming. The client is the parameter `complete`. It returns the whole reply, or `None` when the stream fails.
- Python's aliasing. The page appends to the conversation dict inside the list in place. The model replaces that list element with the extended conversation. The effect is the same.
- Text.Lower: only ASCII letters are lower-cased, while Python's `lower()` also lower-cases other letters. The dispatch decision is the same either way, because no character outside ASCII lower-cases into the letters of "pdf", "xlsx" or "xls".
- A spreadsheet cell holding a newline or a bar ("|") makes the text ambiguous. The round trip is proved only for sheets without them, which is why `SheetTextRoundTrip` requires it.
