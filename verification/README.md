# gosmtp message building and sending, modelled in Dafny

`gosmtp` is a small Go SMTP client. It has three variants of the same idea,
and each becomes its own module here:

- **`Messanger`** (Messanger.go) is a builder-style `Message`. It has setters
  for the sender, recipients, subject, text and html bodies. Attachments are
  loaded from files or readers, and an unreadable file is skipped. The
  serialiser (`buildMessageBody`) writes a header map in whatever order Go
  ranges it, then an optional `multipart/mixed` preamble, the text and html
  parts, and the base64 attachment parts. Its boundary is the hex of 16
  random bytes.
- **`Sender`** (Sender.go) is a queueing sender. `AddMessage` stamps each
  message with the account address and queues it. `Send` runs one mail
  transaction per queued message: MAIL, RCPT for every To, Cc and Bcc
  address, DATA, the payload, then close. It dequeues each message before
  trying it and returns at the first error. Its serialiser always writes a
  text/plain part and never the html one. It decides the recipient headers
  on nil-ness rather than length, and as a side effect turns nil lists into
  empty ones.
- **`Client`** (Client.go) is a single-message sender. `NewMessage` loads the
  attachments and stores the serialised bytes. It always writes a To header
  and never Cc or Bcc. It always writes a delimiter after the text, so a
  message without attachments ends in a bare `\r\n--b`. `Send` ignores
  MAIL/RCPT errors, panics on a refused DATA or close, and always sends QUIT.

Five supporting modules hold the shared pieces:

- `Results`: the `Option` and `Result` types that carry Go's error returns.
- `Strings`: occurrence counting, `strings.Join`, and the file half of
  `filepath.Split`.
- `Encoding`: `hex.EncodeToString` and standard padded base64, each with its
  decoder so that round trips can be stated.
- `Mime`: header maps, header order, and the multipart layout with its
  counting lemmas.
- `Smtp`: the commands of a mail transaction, and a server oracle that
  answers each command given everything sent before it on the connection.

Everything the Go code gets from the outside world is a parameter:

- **Header order.** Go's map iteration order is a `HeaderOrder`, any
  permutation of the seven header keys. Properties about headers are stated
  over the multiset of header lines, so they hold for every order.
- **Boundaries and dates.** The random boundary and `time.Now()` formatted
  as RFC 1123Z are parameters (`BuildEnv`, or `RandomBlock` for
  `generateBoundary`).
- **Files.** Reading files is a `FileSystem` oracle from path to bytes or an
  error.
- **MIME sniffing.** Content sniffing is a `Sniffer`: a signature matcher
  that may fail, plus a fallback detector. This mirrors
  `filetype.Match` / `http.DetectContentType`.
- **The SMTP server.** The server is a function from (commands so far,
  command) to a reply.
- **Building in `Sender.Send`.** `Sender.Send` takes the per-message build
  step as a function. `Sender.Builder(env, fs, sniffer)` is the source's
  `buildMessageBody` with the boundary, date and order of the `k`-th call.

The source files conflict with each other:

- Sender.go and Client.go declare different `Sender` structs.
- Sender.go's `buildMessageBody` reads an `attaches` field that Messanger.go's
  `Message` does not have, and it reuses the name of Messanger.go's method.

The files cannot be compiled together, so each keeps its own types here.
`Sender.Message` carries the attachment paths in `attaches`, which is what
Sender.go reads.

## Model

| member | source | states |
|---|---|---|
| Messanger.NewMessage | Messanger.go:28-30 | a new message has no recipients, no attachments and empty text, html, subject and sender |
| Messanger.SetFrom | Messanger.go:33-36 | sets the sender to the argument; restoring the old sender gives back the original message, so nothing else changed |
| Messanger.SetCC | Messanger.go:39-42 | replaces the Cc list with the arguments and changes nothing else |
| Messanger.SetTO | Messanger.go:45-48 | replaces the To list with the arguments and changes nothing else |
| Messanger.SetBCC | Messanger.go:51-54 | replaces the Bcc list with the arguments and changes nothing else |
| Messanger.SetSubject | Messanger.go:57-60 | sets the subject and changes nothing else |
| Messanger.SetText | Messanger.go:63-66 | sets the text body and changes nothing else |
| Messanger.SetHTML | Messanger.go:69-72 | sets the html body and changes nothing else |
| Messanger.RecipientSettersReplace | Messanger.go:39-54 | setting a recipient list twice keeps only the second list: the setters replace and never append |
| Messanger.AttachReader | Messanger.go:169-182 | succeeds exactly when the read succeeds; the attachment holds the bytes read, the base name of the given name and the sniffed type; a failed read passes its error through |
| Messanger.AttacheReader | Messanger.go:93-100 | on success the attachments grow by exactly the new attachment at the end and no error is returned; on failure the message is unchanged and the read error is returned; no other field ever changes |
| Messanger.AddAttaches | Messanger.go:75-84 | the attachments become the old ones followed by the loadable files of the arguments, in argument order; unreadable files are skipped; no other field changes |
| Messanger.LoadableSpec | Messanger.go:75-84 | at most one attachment per path; if every file loads, exactly one per path in order, each named by the path's base name with the file's bytes; if none loads, none |
| Messanger.LoadableAppend | Messanger.go:76-82 | loading paths then one more path gives the first result followed by the last path's |
| Messanger.GenerateBoundary | Messanger.go:86-90 | the boundary is 32 lower-case hex digits that decode back to the 16 random bytes |
| Messanger.HeaderRules | Messanger.go:105-123 | in any map order the header lines are, as a multiset, exactly one From, Subject, `MIME-Version: 1.0` and Date line, plus a To, Cc or Bcc line carrying the list joined with `;` exactly when that list is non-empty |
| Messanger.BuildStartsWithHeaders | Messanger.go:121-123 | the output opens with the header block |
| Messanger.NoAttachmentsLayout | Messanger.go:124-153 | without attachments the output is the header block, then the text part if the text is non-empty, then the html part if the html is non-empty; there is no multipart header and no delimiter, and the random bytes do not affect the output |
| Messanger.AttachmentsLayout | Messanger.go:124-153 | with attachments the output opens with the header block, the multipart preamble, the text and html parts and one delimiter; when no user field contains `--b`, the text and html parts hold no `--b`, so no delimiter separates them; each attachment part appears whole at its own offset, and the parts appear in insertion order without overlapping |
| Messanger.BuildEndsClosed | Messanger.go:139-153 | with attachments the output ends with the close-delimiter `--b--` |
| Messanger.DelimiterCount | Messanger.go:103-155 | if no user field contains `--b`, the output holds `--b` exactly N + 2 times with N >= 1 attachments and never without attachments |
| Sender.Stamp | Sender.go:31-34 | each message, in order, with its sender replaced by the account address |
| Sender.AddMessage | Sender.go:30-35 | the queue keeps its old contents and gains the messages at the back in argument order, each stamped with the account address; no other field changes |
| Sender.AddMessageBatches | Sender.go:30-35 | adding two batches one after the other queues the same as adding them at once |
| Sender.Normalise | Sender.go:125-139 | after building, every recipient list is non-nil and holds the same addresses; no other field changes |
| Sender.BuildMessageBody | Sender.go:117-176 | succeeds exactly when every attachment path can be read; a failure (the source's `log.Panic`) carries the first read error; success gives the serialised bytes and the normalised message |
| Sender.HeaderRules | Sender.go:123-149 | in any map order the header lines are, as a multiset, exactly one From, Subject, `MIME-Version: 1.0` and Date line, plus a To, Cc or Bcc line exactly when that list is non-nil, even if it is empty |
| Sender.NormaliseChangesHeaders | Sender.go:125-139 | building is not idempotent: when a list was nil, building the normalised message writes strictly more header lines; after one round the message is stable |
| Sender.NeverHtml | Sender.go:156-158 | the html field never reaches the output |
| Sender.Layout | Sender.go:151-174 | without attachments the output is the header block followed by the text/plain part, even for empty text; with attachments the header block, the multipart preamble, the same text/plain part and `\r\n--b` open the output, and it ends with `--b--` |
| Sender.AttachmentsLayout | Sender.go:158-172 | each attachment part (headers, base64 payload, blank line and `--b`) appears whole at its own offset in the output, after the text part and its delimiter; the parts appear in insertion order without overlapping |
| Sender.DelimiterCount | Sender.go:143-175 | if no user field contains `--b`, the output holds `--b` exactly N + 2 times with N >= 1 attachments and never without attachments |
| Sender.Envelope | Sender.go:41-59 | a transaction's commands before the payload: MAIL from the message's sender, one RCPT per To, Cc and Bcc address in that order, then DATA; its length and end points |
| Sender.TransactionSpec | Sender.go:41-69 | a message's transaction either succeeds or fails. On success the server accepted the whole envelope and payload, and the build succeeded. A refusal stops at the refused command, with everything before it accepted, and what was sent is a prefix of the message's MAIL, RCPT, DATA and payload sequence. A build failure comes after the whole envelope was accepted, and carries the build's error |
| Sender.Dispatch | Sender.go:38-72 | the reference run from queue position `i` never moves backwards; a successful run reaches the end of the queue, and a failed one gets past the message it failed on |
| Sender.DispatchSent | Sender.go:38-72 | a run that completes sends exactly the planned transactions of every remaining message, and the server accepted all of them |
| Sender.DispatchOutcome | Sender.go:38-72 | nil error means the queue is empty, every message went through as planned and the server accepted every command. A refusal or build failure at message `i` leaves the queue at the original `[i+1..]`. The trace then extends the complete transactions of messages `0..i-1`. A refusal's last command is the refused one, with everything before it accepted, and the trace is a prefix of the planned transactions followed by message `i`'s MAIL, RCPT, DATA and payload sequence. A build failure comes after message `i`'s whole envelope was accepted |
| Sender.Send | Sender.go:38-72 | the loop dequeues each message before trying it and stops at the first failure; its queue, trace and result are those of `Dispatch` from position 0, and nothing but the queue changes |
| Client.AttachFiles | Client.go:157-175 | succeeds exactly when every file is readable; then one attachment per path in order, named by the base name and holding the file's bytes and sniffed type; otherwise the error is that of the first unreadable path |
| Client.NewMessage | Client.go:108-154 | fails exactly when a file cannot be loaded, with that error; otherwise stores the recipients and the serialised message and changes no other field |
| Client.HeaderRules | Client.go:114-126 | in any map order the header lines are, as a multiset, exactly one From, To (possibly empty), Subject, `MIME-Version: 1.0` and Date line; there is never a Cc or Bcc header |
| Client.Ending | Client.go:128-151 | with or without attachments, the header block, any multipart preamble, the text part and `\r\n--b` open the output; without attachments the output is exactly the header block, the text part and `\r\n--b`, with no multipart header and no `--` close suffix; with attachments it ends with `--b--` |
| Client.DelimiterCount | Client.go:128-151 | if no user field contains `--b`, the output holds `--b` exactly N + 2 times with N >= 1 attachments, and once without attachments |
| Client.FrontCount | Client.go:124-135 | before the delimiter that follows the text, `--b` occurs once with attachments (in the preamble) and not at all without |
| Client.Send | Client.go:40-55 | sends MAIL and one RCPT per recipient, then DATA, whatever the earlier replies were. A refused DATA panics with its error and sends no payload. Otherwise the stored message follows. The run is delivered exactly when DATA and the close are both accepted. A refused close panics with the close's error. QUIT always ends the session |
| Client.SendIgnoresEnvelopeReplies | Client.go:42-45 | two servers that differ only in their MAIL/RCPT replies lead to the same commands and outcome |
| Smtp.Rcpts | Sender.go:44-58 | one RCPT per address |
| Smtp.RcptsAt | Sender.go:44-58 | the `k`-th RCPT names the `k`-th address |
| Smtp.RcptsAppend | Sender.go:44-58 | the RCPTs of two lists in sequence are the RCPTs of the concatenated list |
| Smtp.ExchangeSpec | Sender.go:41-69 | an `if err != nil { return err }` chain sends a prefix of its commands; it reports no error exactly when it sent them all and the server accepted all; otherwise the last command sent was refused with that error and every earlier one accepted |
| Smtp.AllAcceptedAppend | Sender.go:39-70 | acceptance of two exchanges in sequence is acceptance of their concatenation |
| Smtp.FailedLastAfter | Sender.go:39-70 | a refusal after an accepted prefix is a refusal of the whole run |
| Mime.HeaderLinesPermutation | Messanger.go:121-123 | ranging over the header keys in two orders that are permutations of each other writes the same multiset of lines |
| Mime.HeaderBlockLines | Messanger.go:121-123 | whatever the map order, the header lines are exactly those of the keys present, each once |
| Mime.AttachmentPartPayload | Messanger.go:142-150 | an attachment part is its headers, the base64 payload, a blank line and `--b`; the payload is 4 * ceil(n / 3) characters and decodes back to the file's bytes |
| Mime.AttachmentPartsEnd | Messanger.go:141-151 | with at least one attachment the parts end with a blank line and `--b` |
| Mime.SectionCount | Messanger.go:139-153 | a delimiter, N >= 1 attachment parts and `--` hold `--b` exactly N + 1 times, when the names and types do not contain it |
| Mime.PreambleCount | Messanger.go:124-128 | the multipart preamble holds `--b` exactly once |
| Encoding.HexEncode | Messanger.go:89 | the hex encoding has two lower-case hex digits per byte |
| Encoding.HexRoundTrip | Messanger.go:89 | decoding the hex encoding gives back the bytes |
| Encoding.Base64Encode | Messanger.go:147-148 | the padded standard encoding of n bytes has 4 * ceil(n / 3) characters, each from the base64 alphabet or `=` |
| Encoding.Base64RoundTrip | Messanger.go:147-148 | decoding the base64 encoding gives back the bytes |
| Encoding.Base64HasNoDash | Messanger.go:147-149 | a base64 payload never contains `-`, so it cannot contain a delimiter |
| Strings.BasenameSpec | Messanger.go:180 | the base name is a separator-free suffix of the path; it is the whole path or preceded by a separator |
| Strings.SplitJoin | Messanger.go:108 | joining at least one part with a separator none of them contains can be undone by splitting |

## Left out

- Connections, authentication and TLS (`connect`, `NewSender`) are left out.
  They are network I/O. The model starts from an open connection, given as
  the server oracle.
- `Sender.Quit` (Sender.go:25-27) and the deferred QUIT's reply are left out,
  because the reply is never looked at. `Client.Send` records that QUIT is
  sent.
- `WriteTo` (Messanger.go:158-160) is left out. It only copies the
  serialised bytes to a writer.
- Logging, `log.Panic` and `log.Fatalln` are left out. A panic is modelled
  as an error result (`Sender.SendResult.Panicked`, `Client.Outcome.Panicked`,
  `Err` from `BuildMessageBody` and `NewMessage`).
- `time.Now().Format(time.RFC1123Z)` is a `date` parameter. Its format is not
  modelled.
- `crypto/rand` and `multipart.Writer.Boundary()` are parameters. The model
  assumes lower-case hex, which both produce.
- The MIME sniffing tables of `filetype` and `http.DetectContentType` are
  replaced by the `Sniffer` oracle.
- Opening and reading files is the `FileSystem` oracle. An open error and a
  read error are one error.
- Only the Unix path separator `/` is modelled for `filepath.Split`.
- In Sender.go, writing the payload and closing the data writer are one
  `Payload` command, whose reply is the close's.
- Client.go's write error is overwritten before it is looked at, so it is
  not modelled.
- `net/smtp`'s own checks on addresses (CR/LF rejection) are left out, and
  so are dot-stuffing and line-length rules.
- Aliasing is not modelled. Sender.go queues `*Message` pointers, so
  `AddMessage` also changes the caller's message and building also changes
  the queued one. The model returns the stamped and normalised messages
  instead.
- Client.AttachFiles: on failure the source also returns the partly filled
  slice. Every caller panics on the error, so only the error is modelled.
- Sender.Send: building is a function of the message's position
  (`Sender.Builder`). Boundary and date are drawn per call in the source;
  here the `k`-th call's values are a parameter.
- The example program under `exemple/` is not part of this model.
- Go strings are byte strings that may hold any bytes, and their lengths
  count bytes. The model uses Dafny strings (sequences of characters) for
  header values, text, file names and the serialised output. Its output
  matches Go's bytes only as the UTF-8 encoding of its characters, and only
  for inputs that are valid UTF-8. Attachment data is bytes in both.
