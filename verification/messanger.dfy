/** The message builder of Messanger.go: builder-style setters, attachment
    loading that skips unreadable files, the hex boundary generator and the
    serialiser that renders a message as the bytes sent after DATA. */
module Messanger {
  import opened Results
  import opened Strings
  import opened Encoding
  import opened Mime

  /** A message under construction. A nil recipient list and an empty one
      behave alike here (only their length is ever looked at). */
  datatype Message = Message(
    to: seq<string>, cc: seq<string>, bcc: seq<string>,
    text: string, html: string, subject: string, from: string,
    attachments: seq<Attachment>)

  function NewMessage(): (m: Message)
    ensures m.to == [] && m.cc == [] && m.bcc == [] && m.attachments == []
    ensures m.text == "" && m.html == "" && m.subject == "" && m.from == ""
  {
    Message([], [], [], "", "", "", "", [])
  }

  // ------------------------------------------------------------ setters
  // Each setter replaces one field wholesale and leaves every other field as
  // it was: restoring that field gives back the original message.

  function SetFrom(m: Message, from: string): (r: Message)
    ensures r.from == from && r.(from := m.from) == m
  {
    m.(from := from)
  }

  function SetCC(m: Message, emails: seq<string>): (r: Message)
    ensures r.cc == emails && r.(cc := m.cc) == m
  {
    m.(cc := emails)
  }

  function SetTO(m: Message, emails: seq<string>): (r: Message)
    ensures r.to == emails && r.(to := m.to) == m
  {
    m.(to := emails)
  }

  function SetBCC(m: Message, emails: seq<string>): (r: Message)
    ensures r.bcc == emails && r.(bcc := m.bcc) == m
  {
    m.(bcc := emails)
  }

  function SetSubject(m: Message, subject: string): (r: Message)
    ensures r.subject == subject && r.(subject := m.subject) == m
  {
    m.(subject := subject)
  }

  function SetText(m: Message, body: string): (r: Message)
    ensures r.text == body && r.(text := m.text) == m
  {
    m.(text := body)
  }

  function SetHTML(m: Message, body: string): (r: Message)
    ensures r.html == body && r.(html := m.html) == m
  {
    m.(html := body)
  }

  /** Setting a recipient list twice keeps only the second list: the setters
      replace, they never append. */
  lemma RecipientSettersReplace(m: Message, first: seq<string>, second: seq<string>)
    ensures SetTO(SetTO(m, first), second) == SetTO(m, second)
    ensures SetCC(SetCC(m, first), second) == SetCC(m, second)
    ensures SetBCC(SetBCC(m, first), second) == SetBCC(m, second)
  {
  }

  // -------------------------------------------------------- attachments

  /** `attachReader`: the outcome of reading the whole reader, the name it
      was given, and the classifiers. The stored name is the base name. */
  function AttachReader(read: Result<seq<byte>>, filename: string, sniffer: Sniffer): (r: Result<Attachment>)
    ensures r.Ok? <==> read.Ok?
    ensures r.Err? ==> r.error == read.error
    ensures r.Ok? ==> r.value.data == read.value && r.value.filename == Basename(filename)
                      && r.value.mime == ContentType(sniffer, read.value)
  {
    match read
    case Err(e) => Err(e)
    case Ok(payload) => Ok(Attachment(Basename(filename), ContentType(sniffer, payload), payload))
  }

  /** `attachFile`: opening and reading the file are one lookup in `fs`. */
  function AttachFile(path: string, fs: FileSystem, sniffer: Sniffer): Result<Attachment>
  {
    AttachReader(fs(path), path, sniffer)
  }

  /** `AttacheReader`: on success the message gains exactly the new
      attachment at the end; on failure it is returned untouched with the
      read error. */
  function AttacheReader(m: Message, read: Result<seq<byte>>, filename: string, sniffer: Sniffer)
    : (r: (Message, Option<string>))
    ensures r.1.None? <==> read.Ok?
    ensures read.Ok? ==> r.0.attachments == m.attachments + [Attachment(Basename(filename), ContentType(sniffer, read.value), read.value)]
    ensures read.Err? ==> r.0 == m && r.1 == Some(read.error)
    ensures r.0.(attachments := m.attachments) == m
  {
    match AttachReader(read, filename, sniffer)
    case Err(e) => (m, Some(e))
    case Ok(a) => (m.(attachments := m.attachments + [a]), None)
  }

  /** Reference for `AddAttaches`: the attachments of the paths that load,
      in argument order. */
  function Loadable(paths: seq<string>, fs: FileSystem, sniffer: Sniffer): seq<Attachment>
    decreases |paths|
  {
    if paths == [] then []
    else
      var rest := Loadable(paths[1..], fs, sniffer);
      match AttachFile(paths[0], fs, sniffer)
      case Ok(a) => [a] + rest
      case Err(_) => rest
  }

  lemma {:induction false} LoadableAppend(paths: seq<string>, path: string, fs: FileSystem, sniffer: Sniffer)
    ensures Loadable(paths + [path], fs, sniffer) == Loadable(paths, fs, sniffer) + Loadable([path], fs, sniffer)
    decreases |paths|
  {
    if paths == [] {
      assert paths + [path] == [path];
    } else {
      assert (paths + [path])[1..] == paths[1..] + [path];
      LoadableAppend(paths[1..], path, fs, sniffer);
    }
  }

  /** What `Loadable` keeps: never more than the paths given, all of them
      when every file loads (each named by its base name and holding the
      file's bytes), and none when none loads. */
  lemma {:induction false} LoadableSpec(paths: seq<string>, fs: FileSystem, sniffer: Sniffer)
    ensures |Loadable(paths, fs, sniffer)| <= |paths|
    ensures (forall k :: 0 <= k < |paths| ==> fs(paths[k]).Ok?) ==>
      |Loadable(paths, fs, sniffer)| == |paths| &&
      forall k :: 0 <= k < |paths| ==>
        Loadable(paths, fs, sniffer)[k] == Attachment(Basename(paths[k]), ContentType(sniffer, fs(paths[k]).value), fs(paths[k]).value)
    ensures (forall k :: 0 <= k < |paths| ==> fs(paths[k]).Err?) ==> Loadable(paths, fs, sniffer) == []
    decreases |paths|
  {
    if paths != [] {
      LoadableSpec(paths[1..], fs, sniffer);
      if forall k :: 0 <= k < |paths| ==> fs(paths[k]).Ok? {
        assert forall k :: 0 <= k < |paths[1..]| ==> fs(paths[1..][k]).Ok? by {
          forall k | 0 <= k < |paths[1..]| ensures fs(paths[1..][k]).Ok? {
            assert paths[1..][k] == paths[k + 1];
          }
        }
        assert fs(paths[0]).Ok?;
      }
      if forall k :: 0 <= k < |paths| ==> fs(paths[k]).Err? {
        assert forall k :: 0 <= k < |paths[1..]| ==> fs(paths[1..][k]).Err? by {
          forall k | 0 <= k < |paths[1..]| ensures fs(paths[1..][k]).Err? {
            assert paths[1..][k] == paths[k + 1];
          }
        }
        assert fs(paths[0]).Err?;
      }
    }
  }

  /** `AddAttaches`: each path in turn; a file that loads is appended, one
      that does not is skipped (the source only logs it). */
  method AddAttaches(m: Message, paths: seq<string>, fs: FileSystem, sniffer: Sniffer) returns (r: Message)
    ensures r.attachments == m.attachments + Loadable(paths, fs, sniffer)
    ensures r.(attachments := m.attachments) == m
  {
    r := m;
    var i := 0;
    while i < |paths|
      invariant 0 <= i <= |paths|
      decreases |paths| - i
      invariant r.attachments == m.attachments + Loadable(paths[..i], fs, sniffer)
      invariant r.(attachments := m.attachments) == m
    {
      LoadableAppend(paths[..i], paths[i], fs, sniffer);
      assert paths[..i + 1] == paths[..i] + [paths[i]];
      match AttachFile(paths[i], fs, sniffer) {
        case Ok(a) =>
          r := r.(attachments := r.attachments + [a]);
        case Err(_) =>
      }
      i := i + 1;
    }
    assert paths[..|paths|] == paths;
  }

  // ------------------------------------------------------------- boundary

  /** The 16 bytes `crypto/rand` fills in. */
  type RandomBlock = s: seq<byte> | |s| == 16
    witness [0, 0, 0, 0, 0, 0, 0, 0, 0, 0, 0, 0, 0, 0, 0, 0]

  /** `generateBoundary`: the hex of 16 random bytes, 32 lower-case hex
      digits from which the bytes can be read back. */
  function GenerateBoundary(random: RandomBlock): (b: string)
    ensures |b| == 32 && IsBoundary(b)
    ensures HexDecode(b) == Some(random)
  {
    HexRoundTrip(random);
    HexEncode(random)
  }

  // ----------------------------------------------------------- serialiser

  /** The header map: From, Subject, MIME-Version and Date always; To, Cc
      and Bcc only for non-empty lists, joined with `;`. */
  function Headers(m: Message, date: string): map<HeaderName, string>
  {
    var h0 := map[From := m.from];
    var h1 := if |m.to| > 0 then h0[To := Join(m.to, ";")] else h0;
    var h2 := if |m.cc| > 0 then h1[Cc := Join(m.cc, ";")] else h1;
    var h3 := if |m.bcc| > 0 then h2[Bcc := Join(m.bcc, ";")] else h2;
    h3[Subject := m.subject][MimeVersion := "1.0"][Date := date]
  }

  /** `buildMessageBody`: the header block in the map's iteration order;
      with attachments, the multipart preamble; the text part if there is
      text and the html part if there is html, back to back; with
      attachments, a delimiter, the attachment parts and the close suffix. */
  function BuildMessageBody(m: Message, random: RandomBlock, date: string, order: HeaderOrder): string
  {
    var b := GenerateBoundary(random);
    HeaderBlock(Headers(m, date), order) + Preamble(m, b) + TextParts(m) + Section(m, b)
  }

  /** The multipart header and first delimiter, written only with attachments. */
  function Preamble(m: Message, b: string): string
  {
    if |m.attachments| > 0 then MultipartPreamble(b) else ""
  }

  /** The text part if there is text, then the html part if there is html. */
  function TextParts(m: Message): string
  {
    (if m.text != "" then BodyPart(TextPlainHeader, m.text) else "")
    + (if m.html != "" then BodyPart(TextHtmlHeader, m.html) else "")
  }

  /** The delimiter, the attachment parts and the close suffix, written only
      with attachments. */
  function Section(m: Message, b: string): string
  {
    if |m.attachments| > 0 then Delimiter(b) + AttachmentParts(m.attachments, b) + CloseSuffix else ""
  }

  /** The output opens with the header block. */
  lemma BuildStartsWithHeaders(m: Message, random: RandomBlock, date: string, order: HeaderOrder)
    ensures HeaderBlock(Headers(m, date), order) <= BuildMessageBody(m, random, date, order)
  {
    var b := GenerateBoundary(random);
    PrefixOfConcat4(HeaderBlock(Headers(m, date), order), Preamble(m, b), TextParts(m), Section(m, b));
  }

  /** With attachments the output ends with the close-delimiter `--b--`. */
  lemma BuildEndsClosed(m: Message, random: RandomBlock, date: string, order: HeaderOrder)
    requires |m.attachments| > 0
    ensures EndsWith(BuildMessageBody(m, random, date, order), DashBoundary(GenerateBoundary(random)) + CloseSuffix)
  {
    var b := GenerateBoundary(random);
    SectionEnds(m, b);
    EndsWithAppend(HeaderBlock(Headers(m, date), order) + Preamble(m, b) + TextParts(m), Section(m, b), DashBoundary(b) + CloseSuffix);
  }

  /** The attachment section ends with the close-delimiter. */
  lemma SectionEnds(m: Message, b: string)
    requires |m.attachments| > 0
    ensures EndsWith(Section(m, b), DashBoundary(b) + CloseSuffix)
  {
    var parts := AttachmentParts(m.attachments, b);
    AttachmentPartsEnd(m.attachments, b);
    EndsWithAppend(Delimiter(b), parts, BlankLine + DashBoundary(b));
    EndsWithClosed(Delimiter(b) + parts, b);
  }

  /** The header block holds exactly one From, Subject, `MIME-Version: 1.0`
      and Date line, and a To, Cc or Bcc line, carrying the list joined with
      `;`, exactly when that list is non-empty, in whatever order the map is
      ranged. */
  lemma HeaderRules(m: Message, date: string, order: HeaderOrder)
    ensures multiset(HeaderLines(Headers(m, date), order)) == multiset(
      [HeaderLine(From, m.from)]
      + ((if |m.to| > 0 then [HeaderLine(To, Join(m.to, ";"))] else [])
      + ((if |m.cc| > 0 then [HeaderLine(Cc, Join(m.cc, ";"))] else [])
      + ((if |m.bcc| > 0 then [HeaderLine(Bcc, Join(m.bcc, ";"))] else [])
      + ([HeaderLine(Subject, m.subject)]
      + ([HeaderLine(MimeVersion, "1.0")] + [HeaderLine(Date, date)]))))))
  {
    HeaderBlockLines(Headers(m, date), order);
    HeadersPresent(m, date);
  }

  /** Which keys the map holds and what it maps them to. */
  lemma HeadersPresent(m: Message, date: string)
    ensures var h := Headers(m, date);
      && Present(h, From) == [HeaderLine(From, m.from)]
      && Present(h, Subject) == [HeaderLine(Subject, m.subject)]
      && Present(h, MimeVersion) == [HeaderLine(MimeVersion, "1.0")]
      && Present(h, Date) == [HeaderLine(Date, date)]
      && Present(h, To) == (if |m.to| > 0 then [HeaderLine(To, Join(m.to, ";"))] else [])
      && Present(h, Cc) == (if |m.cc| > 0 then [HeaderLine(Cc, Join(m.cc, ";"))] else [])
      && Present(h, Bcc) == (if |m.bcc| > 0 then [HeaderLine(Bcc, Join(m.bcc, ";"))] else [])
  {
  }

  /** Without attachments the message is the header block followed by the
      text part if there is text and the html part if there is html, in that
      order, with no multipart header and no delimiter: the random bytes do
      not reach the output at all. */
  lemma NoAttachmentsLayout(m: Message, random: RandomBlock, other: RandomBlock, date: string, order: HeaderOrder)
    requires m.attachments == []
    ensures BuildMessageBody(m, random, date, order) ==
      HeaderBlock(Headers(m, date), order)
      + ((if m.text != "" then BodyPart(TextPlainHeader, m.text) else "")
         + (if m.html != "" then BodyPart(TextHtmlHeader, m.html) else ""))
    ensures BuildMessageBody(m, random, date, order) == BuildMessageBody(m, other, date, order)
  {
    var head := HeaderBlock(Headers(m, date), order);
    UnusedBoundary(m, head, GenerateBoundary(random));
    UnusedBoundary(m, head, GenerateBoundary(other));
  }

  lemma UnusedBoundary(m: Message, head: string, b: string)
    requires m.attachments == []
    ensures head + Preamble(m, b) + TextParts(m) + Section(m, b) == head + TextParts(m)
  {
    assert Preamble(m, b) == "" && Section(m, b) == "";
    assert head + "" + TextParts(m) + "" == head + TextParts(m);
  }

  /** With attachments the output opens with the header block, the multipart
      preamble, the text and html parts and one delimiter; the text and html
      parts hold no delimiter between them when the user's fields do not;
      and each attachment part is found whole at its own offset, the offsets
      following insertion order without overlapping. */
  lemma AttachmentsLayout(m: Message, random: RandomBlock, date: string, order: HeaderOrder)
    requires |m.attachments| > 0
    ensures var b := GenerateBoundary(random);
      HeaderBlock(Headers(m, date), order) + MultipartPreamble(b) + TextParts(m) + Delimiter(b)
        <= BuildMessageBody(m, random, date, order)
    ensures var b := GenerateBoundary(random);
      FieldsAvoid(m, date, DashBoundary(b)) ==> Occurrences(DashBoundary(b), TextParts(m)) == 0
    ensures var b := GenerateBoundary(random); var out := BuildMessageBody(m, random, date, order);
      forall k :: 0 <= k < |m.attachments| ==>
        && PartOffset(m, b, date, order, k) + |AttachmentPart(m.attachments[k], b)| <= |out|
        && out[PartOffset(m, b, date, order, k)..PartOffset(m, b, date, order, k) + |AttachmentPart(m.attachments[k], b)|]
           == AttachmentPart(m.attachments[k], b)
    ensures var b := GenerateBoundary(random);
      forall j, k :: 0 <= j < k < |m.attachments| ==>
        PartOffset(m, b, date, order, j) + |AttachmentPart(m.attachments[j], b)| <= PartOffset(m, b, date, order, k)
  {
    OpeningFirst(m, random, date, order);
    if FieldsAvoid(m, date, DashBoundary(GenerateBoundary(random))) {
      TextPartsCount(m, GenerateBoundary(random));
    }
    PartsInPlace(m, random, date, order);
    PartsInOrder(m, GenerateBoundary(random), date, order);
  }

  lemma OpeningFirst(m: Message, random: RandomBlock, date: string, order: HeaderOrder)
    requires |m.attachments| > 0
    ensures var b := GenerateBoundary(random);
      HeaderBlock(Headers(m, date), order) + MultipartPreamble(b) + TextParts(m) + Delimiter(b)
        <= BuildMessageBody(m, random, date, order)
  {
    var b := GenerateBoundary(random);
    BuildAroundParts(m, b, date, order);
    assert Preamble(m, b) == MultipartPreamble(b);
    PrefixOfConcat4(Opening(m, b, date, order), AttachmentParts(m.attachments, b), CloseSuffix, "");
  }

  lemma PartsInPlace(m: Message, random: RandomBlock, date: string, order: HeaderOrder)
    ensures var b := GenerateBoundary(random); var out := BuildMessageBody(m, random, date, order);
      forall k :: 0 <= k < |m.attachments| ==>
        && PartOffset(m, b, date, order, k) + |AttachmentPart(m.attachments[k], b)| <= |out|
        && out[PartOffset(m, b, date, order, k)..PartOffset(m, b, date, order, k) + |AttachmentPart(m.attachments[k], b)|]
           == AttachmentPart(m.attachments[k], b)
  {
    forall k | 0 <= k < |m.attachments| {
      PartAt(m, random, date, order, k);
    }
  }

  lemma PartsInOrder(m: Message, b: string, date: string, order: HeaderOrder)
    ensures forall j, k :: 0 <= j < k < |m.attachments| ==>
      PartOffset(m, b, date, order, j) + |AttachmentPart(m.attachments[j], b)| <= PartOffset(m, b, date, order, k)
  {
    forall j, k | 0 <= j < k < |m.attachments|
      ensures PartOffset(m, b, date, order, j) + |AttachmentPart(m.attachments[j], b)| <= PartOffset(m, b, date, order, k)
    {
      OffsetsIncrease(m, b, date, order, j, k);
    }
  }

  /** Everything written before the first attachment part. */
  function Opening(m: Message, b: string, date: string, order: HeaderOrder): string
  {
    HeaderBlock(Headers(m, date), order) + Preamble(m, b) + TextParts(m) + Delimiter(b)
  }

  /** Where the k-th attachment part starts: after the opening and the parts
      before it. */
  function PartOffset(m: Message, b: string, date: string, order: HeaderOrder, k: nat): nat
    requires k <= |m.attachments|
  {
    |Opening(m, b, date, order)| + |AttachmentParts(m.attachments[..k], b)|
  }

  /** With attachments the four pieces are the opening, the parts and `--`. */
  lemma BuildAroundParts(m: Message, b: string, date: string, order: HeaderOrder)
    requires |m.attachments| > 0
    ensures HeaderBlock(Headers(m, date), order) + Preamble(m, b) + TextParts(m) + Section(m, b)
         == Opening(m, b, date, order) + AttachmentParts(m.attachments, b) + CloseSuffix
  {
    var head := HeaderBlock(Headers(m, date), order) + Preamble(m, b) + TextParts(m);
    var parts := AttachmentParts(m.attachments, b);
    assert Section(m, b) == Delimiter(b) + parts + CloseSuffix;
    AppendAssoc(head, Delimiter(b) + parts, CloseSuffix);
    AppendAssoc(head, Delimiter(b), parts);
  }

  /** The k-th part sits at its offset in the output. */
  lemma PartAt(m: Message, random: RandomBlock, date: string, order: HeaderOrder, k: nat)
    requires k < |m.attachments|
    ensures var b := GenerateBoundary(random); var out := BuildMessageBody(m, random, date, order);
      && PartOffset(m, b, date, order, k) + |AttachmentPart(m.attachments[k], b)| <= |out|
      && out[PartOffset(m, b, date, order, k)..PartOffset(m, b, date, order, k) + |AttachmentPart(m.attachments[k], b)|]
         == AttachmentPart(m.attachments[k], b)
  {
    var b := GenerateBoundary(random);
    var opening := Opening(m, b, date, order);
    var before := AttachmentParts(m.attachments[..k], b);
    var part := AttachmentPart(m.attachments[k], b);
    var after := AttachmentParts(m.attachments[k + 1..], b);
    BuildAroundParts(m, b, date, order);
    AttachmentPartsSplit(m.attachments, k, b);
    AppendAssoc(opening, before + part + after, CloseSuffix);
    AppendAssoc(opening + before + part, after, CloseSuffix);
    AppendAssoc(opening, before + part, after);
    AppendAssoc(opening, before, part);
    SliceOfConcat(opening + before, part, after + CloseSuffix);
  }

  /** An earlier part ends no later than a later one starts. */
  lemma OffsetsIncrease(m: Message, b: string, date: string, order: HeaderOrder, j: nat, k: nat)
    requires j < k < |m.attachments|
    ensures PartOffset(m, b, date, order, j) + |AttachmentPart(m.attachments[j], b)| <= PartOffset(m, b, date, order, k)
  {
    var atts := m.attachments[..k];
    AttachmentPartsSplit(atts, j, b);
    assert atts[..j] == m.attachments[..j];
    assert atts[j] == m.attachments[j];
  }

  /** Every field copied verbatim into the output is free of `p`. */
  predicate FieldsAvoid(m: Message, date: string, p: string)
  {
    && Avoids(m.from, p) && Avoids(m.subject, p) && Avoids(date, p)
    && Avoids(Join(m.to, ";"), p) && Avoids(Join(m.cc, ";"), p) && Avoids(Join(m.bcc, ";"), p)
    && Avoids(m.text, p) && Avoids(m.html, p)
    && forall k :: 0 <= k < |m.attachments| ==> AttachmentAvoids(m.attachments[k], p)
  }

  lemma HeadersAvoidBoundary(m: Message, date: string, b: string)
    requires IsBoundary(b) && FieldsAvoid(m, date, DashBoundary(b))
    ensures HeadersAvoid(Headers(m, date), DashBoundary(b))
  {
    assert DoubleDashFree("1.0");
    DoubleDashFreeAvoids(DashBoundary(b), "1.0");
  }

  /** With N >= 1 attachments, and no user field containing it, the
      dash-boundary occurs exactly N + 2 times: the first delimiter, the one
      after the body text, and one ending each attachment (the last being the
      close-delimiter). Without attachments it does not occur at all. */
  lemma DelimiterCount(m: Message, random: RandomBlock, date: string, order: HeaderOrder)
    requires FieldsAvoid(m, date, DashBoundary(GenerateBoundary(random)))
    ensures Occurrences(DashBoundary(GenerateBoundary(random)), BuildMessageBody(m, random, date, order))
         == if |m.attachments| == 0 then 0 else |m.attachments| + 2
  {
    PiecesTotal(m, GenerateBoundary(random), date, order);
  }

  /** The count over the four pieces, for any boundary. */
  lemma PiecesTotal(m: Message, b: string, date: string, order: HeaderOrder)
    requires IsBoundary(b) && FieldsAvoid(m, date, DashBoundary(b))
    ensures Occurrences(DashBoundary(b), HeaderBlock(Headers(m, date), order) + Preamble(m, b) + TextParts(m) + Section(m, b))
         == if |m.attachments| == 0 then 0 else |m.attachments| + 2
  {
    var p := DashBoundary(b);
    HeadersAvoidBoundary(m, date, b);
    HeaderBlockCount(Headers(m, date), order, b);
    TextPartsCount(m, b);
    PiecesCount(m, b);
    PartsOpenForeign(m, b);
    OccurrencesConcat4(p, HeaderBlock(Headers(m, date), order), Preamble(m, b), TextParts(m), Section(m, b));
  }

  /** Every piece after the header block opens with a character no
      dash-boundary holds. */
  lemma PartsOpenForeign(m: Message, b: string)
    requires IsBoundary(b)
    ensures StartsForeign(Preamble(m, b), DashBoundary(b))
    ensures StartsForeign(TextParts(m), DashBoundary(b))
    ensures StartsForeign(Section(m, b), DashBoundary(b))
  {
    PiecesOpenForeign(b, TextPlainHeader, m.text, m.attachments);
    PiecesOpenForeign(b, TextHtmlHeader, m.html, m.attachments);
    if m.text != "" {
      assert TextParts(m)[0] == BodyPart(TextPlainHeader, m.text)[0];
    }
    if |m.attachments| > 0 {
      assert Section(m, b)[0] == Delimiter(b)[0];
    }
  }

  /** The body text holds no delimiter when the user's text does not. */
  lemma TextPartsCount(m: Message, b: string)
    requires IsBoundary(b) && Avoids(m.text, DashBoundary(b)) && Avoids(m.html, DashBoundary(b))
    ensures Avoids(TextParts(m), DashBoundary(b))
  {
    var p := DashBoundary(b);
    var text := if m.text != "" then BodyPart(TextPlainHeader, m.text) else "";
    var html := if m.html != "" then BodyPart(TextHtmlHeader, m.html) else "";
    if m.text != "" { BodyPartCount(TextPlainHeader, m.text, b); }
    if m.html != "" { BodyPartCount(TextHtmlHeader, m.html, b); }
    SeamsForeign(b);
    if html != "" {
      assert html[0] == TextHtmlHeader[0] == 'C';
    }
    OccurrencesConcat(p, text, html);
  }

  /** The preamble and the attachment section hold one and N + 1
      delimiters when there are N >= 1 attachments, none otherwise. */
  lemma PiecesCount(m: Message, b: string)
    requires IsBoundary(b)
    requires forall k :: 0 <= k < |m.attachments| ==> AttachmentAvoids(m.attachments[k], DashBoundary(b))
    ensures Occurrences(DashBoundary(b), Preamble(m, b)) == if |m.attachments| == 0 then 0 else 1
    ensures Occurrences(DashBoundary(b), Section(m, b)) == if |m.attachments| == 0 then 0 else |m.attachments| + 1
  {
    if |m.attachments| > 0 {
      PreambleCount(b);
      SectionCount(m.attachments, b);
    }
  }
}
