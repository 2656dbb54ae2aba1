/** The queueing sender of Sender.go: messages are stamped with the
    account's address and queued; `Send` runs one mail transaction per queued
    message, in order, dequeuing each before it is tried and giving up at the
    first error. Its serialiser always writes a text/plain part and decides
    the recipient headers on nil-ness rather than length. */
module Sender {
  import opened Results
  import opened Strings
  import opened Mime
  import opened Smtp
  import Client

  /** A Go string slice, which may be nil. */
  datatype AddressList = Nil | List(items: seq<string>)

  /** The addresses in a list; nil ranges over nothing. */
  function Items(l: AddressList): seq<string>
  {
    if l.Nil? then [] else l.items
  }

  /** A queued message. `attaches` holds paths, loaded only when the
      message is serialised. */
  datatype Message = Message(
    from: string, to: AddressList, cc: AddressList, bcc: AddressList,
    subject: string, text: string, html: string, attaches: seq<string>)

  datatype Sender = Sender(
    login: string, email: string, password: string, serverSMTP: string,
    messages: seq<Message>)

  // --------------------------------------------------------- AddMessage

  /** Each message with its sender set to `email`, in order. */
  function Stamp(msgs: seq<Message>, email: string): (r: seq<Message>)
    ensures |r| == |msgs|
    ensures forall k :: 0 <= k < |msgs| ==> r[k] == msgs[k].(from := email)
    decreases |msgs|
  {
    if msgs == [] then [] else [msgs[0].(from := email)] + Stamp(msgs[1..], email)
  }

  /** `AddMessage`: the messages, each stamped with the account's address,
      go to the back of the queue in argument order; nothing else changes. */
  function AddMessage(s: Sender, msgs: seq<Message>): (r: Sender)
    ensures r.(messages := s.messages) == s
    ensures |r.messages| == |s.messages| + |msgs| && r.messages[..|s.messages|] == s.messages
    ensures forall k :: 0 <= k < |msgs| ==> r.messages[|s.messages| + k] == msgs[k].(from := s.email)
  {
    s.(messages := s.messages + Stamp(msgs, s.email))
  }

  /** Adding two batches one after the other queues the same as adding
      them together. */
  lemma AddMessageBatches(s: Sender, a: seq<Message>, b: seq<Message>)
    ensures AddMessage(AddMessage(s, a), b) == AddMessage(s, a + b)
  {
    var left := AddMessage(AddMessage(s, a), b).messages;
    var right := AddMessage(s, a + b).messages;
    assert |left| == |right|;
    forall k | 0 <= k < |left| ensures left[k] == right[k] {
      if k >= |s.messages| + |a| {
        assert (a + b)[k - |s.messages|] == b[k - |s.messages| - |a|];
      } else if k >= |s.messages| {
        assert (a + b)[k - |s.messages|] == a[k - |s.messages|];
        assert left[k] == AddMessage(s, a).messages[k];
      } else {
        assert left[k] == AddMessage(s, a).messages[k];
      }
    }
  }

  // --------------------------------------------------- buildMessageBody

  /** The header map: From; To, Cc and Bcc for every list that is not nil,
      even an empty one; Subject, MIME-Version and Date. */
  function Headers(m: Message, date: string): map<HeaderName, string>
  {
    var h0 := map[From := m.from];
    var h1 := if m.to.List? then h0[To := Join(m.to.items, ";")] else h0;
    var h2 := if m.cc.List? then h1[Cc := Join(m.cc.items, ";")] else h1;
    var h3 := if m.bcc.List? then h2[Bcc := Join(m.bcc.items, ";")] else h2;
    h3[Subject := m.subject][MimeVersion := "1.0"][Date := date]
  }

  /** The serialiser's side effect: every nil list becomes an empty one. */
  function Normalise(m: Message): (r: Message)
    ensures r.to.List? && r.cc.List? && r.bcc.List?
    ensures Items(r.to) == Items(m.to) && Items(r.cc) == Items(m.cc) && Items(r.bcc) == Items(m.bcc)
    ensures r.(to := m.to, cc := m.cc, bcc := m.bcc) == m
  {
    m.(to := List(Items(m.to)), cc := List(Items(m.cc)), bcc := List(Items(m.bcc)))
  }

  /** The bytes written: the header block; with attachments the multipart
      preamble; the text part, always, whatever the text; with attachments a
      delimiter, the parts and the close suffix. The html field is never
      read. */
  function Serialise(m: Message, atts: seq<Attachment>, env: BuildEnv): string
  {
    var b := env.boundary;
    HeaderBlock(Headers(m, env.date), env.order) + Preamble(atts, b)
    + BodyPart(TextPlainHeader, m.text) + Section(atts, b)
  }

  /** The multipart header and first delimiter, written only with attachments. */
  function Preamble(atts: seq<Attachment>, b: string): string
  {
    if |atts| > 0 then MultipartPreamble(b) else ""
  }

  /** The delimiter, the parts and the close suffix, written only with
      attachments. */
  function Section(atts: seq<Attachment>, b: string): string
  {
    if |atts| > 0 then Delimiter(b) + AttachmentParts(atts, b) + CloseSuffix else ""
  }

  datatype Built = Built(body: string, message: Message)

  /** `buildMessageBody`: loads the attachments, failing (the source panics)
      on the first unreadable one; otherwise the serialised bytes and the
      message with its nil lists normalised. */
  function BuildMessageBody(m: Message, env: BuildEnv, fs: FileSystem, sniffer: Sniffer): (r: Result<Built>)
    ensures r.Ok? <==> forall k :: 0 <= k < |m.attaches| ==> fs(m.attaches[k]).Ok?
    ensures r.Err? ==> r.error == Client.AttachFiles(m.attaches, fs, sniffer).error
    ensures r.Ok? ==> r.value.message == Normalise(m)
    ensures r.Ok? ==> r.value.body == Serialise(m, Client.AttachFiles(m.attaches, fs, sniffer).value, env)
  {
    match Client.AttachFiles(m.attaches, fs, sniffer)
    case Err(e) => Err(e)
    case Ok(atts) => Ok(Built(Serialise(m, atts, env), Normalise(m)))
  }

  /** The header block holds exactly one From, Subject, `MIME-Version: 1.0`
      and Date line, and a To, Cc or Bcc line exactly when that list is not
      nil, in whatever order the map is ranged. */
  lemma HeaderRules(m: Message, date: string, order: HeaderOrder)
    ensures multiset(HeaderLines(Headers(m, date), order)) == multiset(
      [HeaderLine(From, m.from)]
      + ((if m.to.List? then [HeaderLine(To, Join(m.to.items, ";"))] else [])
      + ((if m.cc.List? then [HeaderLine(Cc, Join(m.cc.items, ";"))] else [])
      + ((if m.bcc.List? then [HeaderLine(Bcc, Join(m.bcc.items, ";"))] else [])
      + ([HeaderLine(Subject, m.subject)]
      + ([HeaderLine(MimeVersion, "1.0")] + [HeaderLine(Date, date)]))))))
  {
    HeaderBlockLines(Headers(m, date), order);
    HeadersPresent(m, date);
  }

  lemma HeadersPresent(m: Message, date: string)
    ensures var h := Headers(m, date);
      && Present(h, From) == [HeaderLine(From, m.from)]
      && Present(h, Subject) == [HeaderLine(Subject, m.subject)]
      && Present(h, MimeVersion) == [HeaderLine(MimeVersion, "1.0")]
      && Present(h, Date) == [HeaderLine(Date, date)]
      && Present(h, To) == (if m.to.List? then [HeaderLine(To, Join(m.to.items, ";"))] else [])
      && Present(h, Cc) == (if m.cc.List? then [HeaderLine(Cc, Join(m.cc.items, ";"))] else [])
      && Present(h, Bcc) == (if m.bcc.List? then [HeaderLine(Bcc, Join(m.bcc.items, ";"))] else [])
  {
  }

  /** Serialising is not idempotent: when a list was nil, serialising the
      normalised message writes more header lines than the first time (an
      empty To, Cc or Bcc line). After one round the message is stable. */
  lemma NormaliseChangesHeaders(m: Message, date: string, order: HeaderOrder)
    requires m.to.Nil? || m.cc.Nil? || m.bcc.Nil?
    ensures |HeaderLines(Headers(Normalise(m), date), order)| > |HeaderLines(Headers(m, date), order)|
    ensures Normalise(Normalise(m)) == Normalise(m)
  {
    HeaderRules(m, date, order);
    HeaderRules(Normalise(m), date, order);
  }

  /** No html part is ever written: the html field does not reach the
      output. */
  lemma NeverHtml(m: Message, html: string, atts: seq<Attachment>, env: BuildEnv)
    ensures Serialise(m.(html := html), atts, env) == Serialise(m, atts, env)
  {
  }

  /** Without attachments the output is the header block and the text/plain
      part, even for an empty text; with attachments the header block, the
      multipart preamble, that same text/plain part and a delimiter open the
      output, and it ends with the close-delimiter. */
  lemma Layout(m: Message, atts: seq<Attachment>, env: BuildEnv)
    ensures |atts| == 0 ==>
      Serialise(m, atts, env) == HeaderBlock(Headers(m, env.date), env.order) + BodyPart(TextPlainHeader, m.text)
    ensures |atts| > 0 ==>
      HeaderBlock(Headers(m, env.date), env.order) + MultipartPreamble(env.boundary)
      + BodyPart(TextPlainHeader, m.text) + Delimiter(env.boundary)
        <= Serialise(m, atts, env)
    ensures |atts| > 0 ==>
      EndsWith(Serialise(m, atts, env), DashBoundary(env.boundary) + CloseSuffix)
  {
    if |atts| > 0 {
      TextThenDelimiter(m, atts, env);
    }
    var b := env.boundary;
    var front := HeaderBlock(Headers(m, env.date), env.order) + Preamble(atts, b) + BodyPart(TextPlainHeader, m.text);
    if |atts| > 0 {
      var parts := AttachmentParts(atts, b);
      AttachmentPartsEnd(atts, b);
      EndsWithAppend(Delimiter(b), parts, BlankLine + DashBoundary(b));
      EndsWithClosed(Delimiter(b) + parts, b);
      EndsWithAppend(front, Section(atts, b), DashBoundary(b) + CloseSuffix);
    } else {
      assert front + "" == front;
      assert HeaderBlock(Headers(m, env.date), env.order) + "" == HeaderBlock(Headers(m, env.date), env.order);
    }
  }

  /** Each attachment part (its headers, base64 payload, blank line and
      `--b`, as `AttachmentPartPayload` states) is found whole at its own
      offset in the output, and the parts follow insertion order without
      overlapping. */
  lemma AttachmentsLayout(m: Message, atts: seq<Attachment>, env: BuildEnv)
    ensures forall k :: 0 <= k < |atts| ==>
      && PartOffset(m, atts, env, k) + |AttachmentPart(atts[k], env.boundary)| <= |Serialise(m, atts, env)|
      && Serialise(m, atts, env)[PartOffset(m, atts, env, k)..PartOffset(m, atts, env, k) + |AttachmentPart(atts[k], env.boundary)|]
         == AttachmentPart(atts[k], env.boundary)
    ensures forall j, k :: 0 <= j < k < |atts| ==>
      PartOffset(m, atts, env, j) + |AttachmentPart(atts[j], env.boundary)| <= PartOffset(m, atts, env, k)
  {
    forall k | 0 <= k < |atts|
      ensures && PartOffset(m, atts, env, k) + |AttachmentPart(atts[k], env.boundary)| <= |Serialise(m, atts, env)|
              && Serialise(m, atts, env)[PartOffset(m, atts, env, k)..PartOffset(m, atts, env, k) + |AttachmentPart(atts[k], env.boundary)|]
                 == AttachmentPart(atts[k], env.boundary)
    {
      PartAt(m, atts, env, k);
    }
    forall j, k | 0 <= j < k < |atts|
      ensures PartOffset(m, atts, env, j) + |AttachmentPart(atts[j], env.boundary)| <= PartOffset(m, atts, env, k)
    {
      OffsetsIncrease(m, atts, env, j, k);
    }
  }

  /** Everything written before the first attachment part. */
  function Opening(m: Message, atts: seq<Attachment>, env: BuildEnv): string
  {
    HeaderBlock(Headers(m, env.date), env.order) + Preamble(atts, env.boundary)
    + BodyPart(TextPlainHeader, m.text) + Delimiter(env.boundary)
  }

  /** Where the k-th attachment part starts: after the opening and the parts
      before it. */
  function PartOffset(m: Message, atts: seq<Attachment>, env: BuildEnv, k: nat): nat
    requires k <= |atts|
  {
    |Opening(m, atts, env)| + |AttachmentParts(atts[..k], env.boundary)|
  }

  /** With attachments the output is the opening, the parts and `--`. */
  lemma AroundParts(m: Message, atts: seq<Attachment>, env: BuildEnv)
    requires |atts| > 0
    ensures Serialise(m, atts, env) == Opening(m, atts, env) + AttachmentParts(atts, env.boundary) + CloseSuffix
  {
    var b := env.boundary;
    var head := HeaderBlock(Headers(m, env.date), env.order) + Preamble(atts, b) + BodyPart(TextPlainHeader, m.text);
    var parts := AttachmentParts(atts, b);
    assert Section(atts, b) == Delimiter(b) + parts + CloseSuffix;
    AppendAssoc(head, Delimiter(b) + parts, CloseSuffix);
    AppendAssoc(head, Delimiter(b), parts);
  }

  /** The k-th part sits at its offset in the output. */
  lemma PartAt(m: Message, atts: seq<Attachment>, env: BuildEnv, k: nat)
    requires k < |atts|
    ensures PartOffset(m, atts, env, k) + |AttachmentPart(atts[k], env.boundary)| <= |Serialise(m, atts, env)|
    ensures Serialise(m, atts, env)[PartOffset(m, atts, env, k)..PartOffset(m, atts, env, k) + |AttachmentPart(atts[k], env.boundary)|]
         == AttachmentPart(atts[k], env.boundary)
  {
    var b := env.boundary;
    var opening := Opening(m, atts, env);
    var before := AttachmentParts(atts[..k], b);
    var part := AttachmentPart(atts[k], b);
    var after := AttachmentParts(atts[k + 1..], b);
    AroundParts(m, atts, env);
    AttachmentPartsSplit(atts, k, b);
    AppendAssoc(opening, before + part + after, CloseSuffix);
    AppendAssoc(opening + before + part, after, CloseSuffix);
    AppendAssoc(opening, before + part, after);
    AppendAssoc(opening, before, part);
    SliceOfConcat(opening + before, part, after + CloseSuffix);
  }

  /** An earlier part ends no later than a later one starts. */
  lemma OffsetsIncrease(m: Message, atts: seq<Attachment>, env: BuildEnv, j: nat, k: nat)
    requires j < k < |atts|
    ensures PartOffset(m, atts, env, j) + |AttachmentPart(atts[j], env.boundary)| <= PartOffset(m, atts, env, k)
  {
    var prefix := atts[..k];
    AttachmentPartsSplit(prefix, j, env.boundary);
    assert prefix[..j] == atts[..j];
    assert prefix[j] == atts[j];
  }

  /** With attachments the text/plain part and the delimiter after it
      follow the header block and the preamble. */
  lemma TextThenDelimiter(m: Message, atts: seq<Attachment>, env: BuildEnv)
    requires |atts| > 0
    ensures HeaderBlock(Headers(m, env.date), env.order) + MultipartPreamble(env.boundary)
      + BodyPart(TextPlainHeader, m.text) + Delimiter(env.boundary)
        <= Serialise(m, atts, env)
  {
    var b := env.boundary;
    var head := HeaderBlock(Headers(m, env.date), env.order) + MultipartPreamble(b) + BodyPart(TextPlainHeader, m.text);
    var tail := AttachmentParts(atts, b) + CloseSuffix;
    assert Section(atts, b) == Delimiter(b) + AttachmentParts(atts, b) + CloseSuffix;
    AppendAssoc(Delimiter(b), AttachmentParts(atts, b), CloseSuffix);
    AppendAssoc(head, Delimiter(b), tail);
    assert Serialise(m, atts, env) == (head + Delimiter(b)) + tail;
    assert ((head + Delimiter(b)) + tail)[..|head + Delimiter(b)|] == head + Delimiter(b);
  }

  /** Every user field copied into the output is free of `p`. */
  predicate FieldsAvoid(m: Message, atts: seq<Attachment>, date: string, p: string)
  {
    && Avoids(m.from, p) && Avoids(m.subject, p) && Avoids(date, p) && Avoids(m.text, p)
    && Avoids(Join(Items(m.to), ";"), p) && Avoids(Join(Items(m.cc), ";"), p) && Avoids(Join(Items(m.bcc), ";"), p)
    && forall k :: 0 <= k < |atts| ==> AttachmentAvoids(atts[k], p)
  }

  lemma HeadersAvoidBoundary(m: Message, date: string, b: string)
    requires IsBoundary(b)
    requires Avoids(m.from, DashBoundary(b)) && Avoids(m.subject, DashBoundary(b)) && Avoids(date, DashBoundary(b))
    requires Avoids(Join(Items(m.to), ";"), DashBoundary(b)) && Avoids(Join(Items(m.cc), ";"), DashBoundary(b))
    requires Avoids(Join(Items(m.bcc), ";"), DashBoundary(b))
    ensures HeadersAvoid(Headers(m, date), DashBoundary(b))
  {
    assert DoubleDashFree("1.0");
    DoubleDashFreeAvoids(DashBoundary(b), "1.0");
  }

  lemma HeaderBlockAvoids(m: Message, date: string, order: HeaderOrder, b: string)
    requires IsBoundary(b)
    requires Avoids(m.from, DashBoundary(b)) && Avoids(m.subject, DashBoundary(b)) && Avoids(date, DashBoundary(b))
    requires Avoids(Join(Items(m.to), ";"), DashBoundary(b)) && Avoids(Join(Items(m.cc), ";"), DashBoundary(b))
    requires Avoids(Join(Items(m.bcc), ";"), DashBoundary(b))
    ensures Avoids(HeaderBlock(Headers(m, date), order), DashBoundary(b))
    ensures HeaderBlock(Headers(m, date), order) == [] || HeaderBlock(Headers(m, date), order)[|HeaderBlock(Headers(m, date), order)| - 1] == '\n'
  {
    HeadersAvoidBoundary(m, date, b);
    HeaderBlockCount(Headers(m, date), order, b);
  }

  /** With N >= 1 attachments, and no user field containing it, the
      dash-boundary occurs N + 2 times; without attachments not at all. */
  lemma DelimiterCount(m: Message, atts: seq<Attachment>, env: BuildEnv)
    requires IsBoundary(env.boundary) && FieldsAvoid(m, atts, env.date, DashBoundary(env.boundary))
    ensures Occurrences(DashBoundary(env.boundary), Serialise(m, atts, env))
         == if |atts| == 0 then 0 else |atts| + 2
  {
    var b := env.boundary;
    var p := DashBoundary(b);
    var head, body := HeaderBlock(Headers(m, env.date), env.order), BodyPart(TextPlainHeader, m.text);
    assert Avoids(head, p) && Avoids(body, p) by {
      HeaderBlockAvoids(m, env.date, env.order, b);
      BodyPartCount(TextPlainHeader, m.text, b);
    }
    assert Occurrences(p, Preamble(atts, b)) == (if |atts| == 0 then 0 else 1)
        && Occurrences(p, Section(atts, b)) == (if |atts| == 0 then 0 else |atts| + 1) by {
      PiecesCount(atts, b);
    }
    assert StartsForeign(Preamble(atts, b), p) && StartsForeign(body, p) && StartsForeign(Section(atts, b), p) by {
      PiecesForeign(atts, b, m.text);
    }
    OccurrencesConcat4(p, head, Preamble(atts, b), body, Section(atts, b));
  }

  /** Every piece after the header block opens with a character foreign to
      the dash-boundary, so no occurrence straddles a seam. */
  lemma PiecesForeign(atts: seq<Attachment>, b: string, text: string)
    requires IsBoundary(b)
    ensures StartsForeign(Preamble(atts, b), DashBoundary(b))
    ensures StartsForeign(BodyPart(TextPlainHeader, text), DashBoundary(b))
    ensures StartsForeign(Section(atts, b), DashBoundary(b))
  {
    PiecesOpenForeign(b, TextPlainHeader, text, atts);
    if |atts| > 0 {
      assert Section(atts, b)[0] == Delimiter(b)[0];
    }
  }

  /** The preamble and the attachment section hold one and N + 1
      delimiters when there are N >= 1 attachments, none otherwise. */
  lemma PiecesCount(atts: seq<Attachment>, b: string)
    requires IsBoundary(b)
    requires forall k :: 0 <= k < |atts| ==> AttachmentAvoids(atts[k], DashBoundary(b))
    ensures Occurrences(DashBoundary(b), Preamble(atts, b)) == if |atts| == 0 then 0 else 1
    ensures Occurrences(DashBoundary(b), Section(atts, b)) == if |atts| == 0 then 0 else |atts| + 1
  {
    if |atts| > 0 {
      PreambleCount(b);
      SectionCount(atts, b);
    }
  }

  // --------------------------------------------------------------- Send

  /** MAIL from the message's sender, one RCPT per To, Cc and Bcc address in
      that order, then DATA. */
  function Envelope(m: Message): (r: seq<Command>)
    ensures |r| == |Items(m.to)| + |Items(m.cc)| + |Items(m.bcc)| + 2
    ensures r[0] == Mail(m.from) && r[|r| - 1] == Data
  {
    [Mail(m.from)] + Rcpts(Items(m.to)) + Rcpts(Items(m.cc)) + Rcpts(Items(m.bcc)) + [Data]
  }

  /** How `Send` builds queued message `k`: `buildMessageBody` with the
      boundary, date and header order of that call. */
  function Builder(env: nat -> BuildEnv, fs: FileSystem, sniffer: Sniffer): (nat, Message) -> Result<Built>
  {
    (k: nat, m: Message) => BuildMessageBody(m, env(k), fs, sniffer)
  }

  /** What building each queued message would give. Building is a pure
      function of its oracles, so this is what `Send` meets whenever it
      builds message `k`. */
  function Builds(q: seq<Message>, build: (nat, Message) -> Result<Built>): (r: seq<Result<Built>>)
    ensures |r| == |q|
    ensures forall k :: 0 <= k < |q| ==> r[k] == build(k, q[k])
  {
    seq(|q|, k requires 0 <= k < |q| => build(k, q[k]))
  }

  /** Reference for `Send`: the commands of the first `n` queued messages'
      transactions, each its envelope followed by its serialised payload, or
      the error of the first message whose attachments do not load. */
  function Planned(q: seq<Message>, builds: seq<Result<Built>>, n: nat): Result<seq<Command>>
    requires n <= |q| == |builds|
  {
    if n == 0 then Ok([])
    else match Planned(q, builds, n - 1)
      case Err(e) => Err(e)
      case Ok(earlier) =>
        match builds[n - 1]
        case Err(e) => Err(e)
        case Ok(built) => Ok(earlier + Envelope(q[n - 1]) + [Payload(built.body)])
  }

  datatype SendResult = Sent | Failed(error: string) | Panicked(error: string)

  /** One iteration of `Send`'s loop for message `m`, whose serialisation
      is `built`: the envelope, stopping at the first refusal; then the
      payload, so that a message whose attachments do not load panics after
      DATA was accepted. Returns the commands sent and how it ended. */
  function Transaction(server: Server, history: seq<Command>, m: Message, built: Result<Built>)
    : (seq<Command>, SendResult)
  {
    var envelope := Exchange(server, history, Envelope(m));
    if envelope.1.Some? then (envelope.0, Failed(envelope.1.value))
    else match built
      case Err(e) => (envelope.0, Panicked(e))
      case Ok(b) =>
        var close := Exchange(server, history + envelope.0, [Payload(b.body)]);
        (envelope.0 + close.0, if close.1.Some? then Failed(close.1.value) else Sent)
  }

  /** The commands a transaction of `m` tries to send: its envelope, then
      its payload when the message built. */
  function Attempt(m: Message, built: Result<Built>): seq<Command>
  {
    Envelope(m) + (if built.Ok? then [Payload(built.value.body)] else [])
  }

  /** A transaction succeeds exactly when the whole envelope and the payload
      were accepted; it fails on the refused command that ended it, having
      sent that message's envelope and payload in order up to it; it panics
      after an accepted envelope when the message does not load. */
  lemma TransactionSpec(server: Server, history: seq<Command>, m: Message, built: Result<Built>)
    ensures var r := Transaction(server, history, m, built);
      && (r.1.Sent? ==>
        && built.Ok?
        && r.0 == Envelope(m) + [Payload(built.value.body)]
        && AllAccepted(server, history, r.0))
      && (r.1.Failed? ==> FailedLast(server, history, r.0, r.1.error) && r.0 <= Attempt(m, built))
      && (r.1.Panicked? ==>
        && r.0 == Envelope(m) && AllAccepted(server, history, r.0)
        && built == Err(r.1.error))
  {
    var envelope := Exchange(server, history, Envelope(m));
    ExchangeSpec(server, history, Envelope(m));
    if envelope.1.Some? {
      assert Attempt(m, built)[..|Envelope(m)|] == Envelope(m);
    }
    if envelope.1.None? && built.Ok? {
      var close := Exchange(server, history + envelope.0, [Payload(built.value.body)]);
      ExchangeSpec(server, history + envelope.0, [Payload(built.value.body)]);
      if close.1.Some? {
        FailedLastAfter(server, history, envelope.0, close.0, close.1.value);
        PrefixAfter(Envelope(m), close.0, [Payload(built.value.body)]);
      } else {
        AllAcceptedAppend(server, history, envelope.0, close.0);
      }
    }
  }

  /** Reference for `Send` from queue position `i` on: the position the
      queue is left at, the commands sent and the result. The run goes on
      while transactions succeed. */
  function Dispatch(q: seq<Message>, builds: seq<Result<Built>>, i: nat, server: Server, history: seq<Command>)
    : (r: (nat, seq<Command>, SendResult))
    requires i <= |q| == |builds|
    ensures i <= r.0 <= |q|
    ensures r.2.Sent? ==> r.0 == |q|
    ensures !r.2.Sent? ==> i < r.0
    decreases |q| - i
  {
    if i == |q| then (|q|, [], Sent)
    else
      var t := Transaction(server, history, q[i], builds[i]);
      if !t.1.Sent? then (i + 1, t.0, t.1)
      else
        var rest := Dispatch(q, builds, i + 1, server, history + t.0);
        (rest.0, t.0 + rest.1, rest.2)
  }

  /** A successful transaction of message `i`, after the planned
      transactions `done` of the messages before it, is the planned one for
      `i`. */
  lemma {:induction false} DispatchStep(q: seq<Message>, builds: seq<Result<Built>>, i: nat, server: Server,
                     history: seq<Command>, done: seq<Command>)
    requires i < |q| == |builds| && Planned(q, builds, i) == Ok(done)
    requires Transaction(server, history + done, q[i], builds[i]).1.Sent?
    ensures var t := Transaction(server, history + done, q[i], builds[i]).0;
      Planned(q, builds, i + 1) == Ok(done + t) && AllAccepted(server, history + done, t)
  {
    TransactionSpec(server, history + done, q[i], builds[i]);
    AppendAssoc(done, Envelope(q[i]), [Payload(builds[i].value.body)]);
  }

  /** Past a successful transaction of message `i`, the run from `i` after
      `trace` is the run from `i + 1` after the longer trace. */
  lemma {:induction false} DispatchAdvance(q: seq<Message>, builds: seq<Result<Built>>, i: nat, server: Server,
                        history: seq<Command>, trace: seq<Command>)
    requires i < |q| == |builds|
    requires Transaction(server, history + trace, q[i], builds[i]).1.Sent?
    ensures var t := Transaction(server, history + trace, q[i], builds[i]).0;
      var d := Dispatch(q, builds, i, server, history + trace);
      var rest := Dispatch(q, builds, i + 1, server, history + (trace + t));
      d.0 == rest.0 && trace + d.1 == (trace + t) + rest.1 && d.2 == rest.2 && d.1 == t + rest.1
  {
    var t := Transaction(server, history + trace, q[i], builds[i]).0;
    var rest := Dispatch(q, builds, i + 1, server, history + (trace + t));
    AppendAssoc(history, trace, t);
    AppendAssoc(trace, t, rest.1);
  }

  /** A run that completes sends every remaining message's envelope and
      payload, exactly as planned, and the server accepted all of it. */
  lemma {:induction false} DispatchSent(q: seq<Message>, builds: seq<Result<Built>>, i: nat, server: Server,
                                        history: seq<Command>, done: seq<Command>)
    requires i <= |q| == |builds| && Planned(q, builds, i) == Ok(done)
    ensures var d := Dispatch(q, builds, i, server, history + done);
      d.2.Sent? ==>
        && Planned(q, builds, |q|) == Ok(done + d.1)
        && AllAccepted(server, history + done, d.1)
    decreases |q| - i
  {
    if i == |q| {
      assert done + [] == done;
    } else if Transaction(server, history + done, q[i], builds[i]).1.Sent? {
      var t := Transaction(server, history + done, q[i], builds[i]).0;
      DispatchStep(q, builds, i, server, history, done);
      DispatchAdvance(q, builds, i, server, history, done);
      DispatchSent(q, builds, i + 1, server, history, done + t);
      var rest := Dispatch(q, builds, i + 1, server, history + (done + t));
      if rest.2.Sent? {
        AppendAssoc(history, done, t);
        AllAcceptedAppend(server, history + done, t, rest.1);
      }
    }
  }

  /** A run that stopped at position `stop` with `sent` sent after the
      planned transactions `done` was refused with `error`: every message
      before the stopped one went through as planned, the stopped one's
      commands were sent in order up to the refused one, and that was the
      last command sent. */
  predicate FailedAt(q: seq<Message>, builds: seq<Result<Built>>, server: Server, history: seq<Command>,
                     done: seq<Command>, stop: nat, sent: seq<Command>, error: string)
    requires 0 < stop <= |q| == |builds|
  {
    && Planned(q, builds, stop - 1).Ok?
    && Planned(q, builds, stop - 1).value < done + sent
    && done + sent <= Planned(q, builds, stop - 1).value + Attempt(q[stop - 1], builds[stop - 1])
    && FailedLast(server, history + done, sent, error)
  }

  /** A run that stopped at position `stop` with `sent` sent after the
      planned transactions `done` panicked with `error`: every message before
      the stopped one went through as planned, then that message's envelope
      was accepted and its attachments failed to load. */
  predicate PanickedAt(q: seq<Message>, builds: seq<Result<Built>>, server: Server, history: seq<Command>,
                       done: seq<Command>, stop: nat, sent: seq<Command>, error: string)
    requires 0 < stop <= |q| == |builds|
  {
    && Planned(q, builds, stop - 1).Ok?
    && done + sent == Planned(q, builds, stop - 1).value + Envelope(q[stop - 1])
    && builds[stop - 1] == Err(error)
    && AllAccepted(server, history + done, sent)
  }

  /** The run from `i`, after the planned transactions `done`, that ends in
      a refused command stopped at some message from `i` on. */
  predicate FailedRun(q: seq<Message>, builds: seq<Result<Built>>, i: nat, server: Server,
                      history: seq<Command>, done: seq<Command>)
    requires i <= |q| == |builds|
  {
    var d := Dispatch(q, builds, i, server, history + done);
    d.2.Failed? ==> FailedAt(q, builds, server, history, done, d.0, d.1, d.2.error)
  }

  /** The run from `i`, after the planned transactions `done`, that ends in
      a panic stopped at some message from `i` on. */
  predicate PanickedRun(q: seq<Message>, builds: seq<Result<Built>>, i: nat, server: Server,
                        history: seq<Command>, done: seq<Command>)
    requires i <= |q| == |builds|
  {
    var d := Dispatch(q, builds, i, server, history + done);
    d.2.Panicked? ==> PanickedAt(q, builds, server, history, done, d.0, d.1, d.2.error)
  }

  /** Moving an accepted transaction `t` from the trace into `done`. */
  lemma FailedAtShift(q: seq<Message>, builds: seq<Result<Built>>, server: Server, history: seq<Command>,
                      done: seq<Command>, t: seq<Command>, stop: nat, sent: seq<Command>, error: string)
    requires 0 < stop <= |q| == |builds|
    requires AllAccepted(server, history + done, t)
    requires FailedAt(q, builds, server, history, done + t, stop, sent, error)
    ensures FailedAt(q, builds, server, history, done, stop, t + sent, error)
  {
    AppendAssoc(done, t, sent);
    AppendAssoc(history, done, t);
    FailedLastAfter(server, history + done, t, sent, error);
  }

  lemma PanickedAtShift(q: seq<Message>, builds: seq<Result<Built>>, server: Server, history: seq<Command>,
                        done: seq<Command>, t: seq<Command>, stop: nat, sent: seq<Command>, error: string)
    requires 0 < stop <= |q| == |builds|
    requires AllAccepted(server, history + done, t)
    requires PanickedAt(q, builds, server, history, done + t, stop, sent, error)
    ensures PanickedAt(q, builds, server, history, done, stop, t + sent, error)
  {
    AppendAssoc(done, t, sent);
    AppendAssoc(history, done, t);
    AllAcceptedAppend(server, history + done, t, sent);
  }

  /** A refusal during message `i`'s own transaction. */
  lemma {:induction false} FailedHere(q: seq<Message>, builds: seq<Result<Built>>, i: nat, server: Server,
                   history: seq<Command>, done: seq<Command>)
    requires i < |q| == |builds| && Planned(q, builds, i) == Ok(done)
    requires !Transaction(server, history + done, q[i], builds[i]).1.Sent?
    ensures FailedRun(q, builds, i, server, history, done)
  {
    var t := Transaction(server, history + done, q[i], builds[i]);
    assert Dispatch(q, builds, i, server, history + done) == (i + 1, t.0, t.1);
    if t.1.Failed? {
      assert FailedLast(server, history + done, t.0, t.1.error) && t.0 <= Attempt(q[i], builds[i]) by {
        TransactionSpec(server, history + done, q[i], builds[i]);
      }
      ProperPrefix(done, t.0);
      PrefixAfter(done, t.0, Attempt(q[i], builds[i]));
      assert FailedAt(q, builds, server, history, done, i + 1, t.0, t.1.error);
    }
  }

  /** A refusal after message `i` went through. */
  lemma {:induction false} FailedLater(q: seq<Message>, builds: seq<Result<Built>>, i: nat, server: Server,
                    history: seq<Command>, done: seq<Command>)
    requires i < |q| == |builds| && Planned(q, builds, i) == Ok(done)
    requires Transaction(server, history + done, q[i], builds[i]).1.Sent?
    requires FailedRun(q, builds, i + 1, server, history,
                       done + Transaction(server, history + done, q[i], builds[i]).0)
    ensures FailedRun(q, builds, i, server, history, done)
  {
    var t := Transaction(server, history + done, q[i], builds[i]).0;
    DispatchStep(q, builds, i, server, history, done);
    DispatchAdvance(q, builds, i, server, history, done);
    var rest := Dispatch(q, builds, i + 1, server, history + (done + t));
    var d := Dispatch(q, builds, i, server, history + done);
    assert d.0 == rest.0 && d.1 == t + rest.1 && d.2 == rest.2;
    if rest.2.Failed? {
      FailedAtShift(q, builds, server, history, done, t, rest.0, rest.1, rest.2.error);
    }
  }

  lemma {:induction false} DispatchFailed(q: seq<Message>, builds: seq<Result<Built>>, i: nat, server: Server,
                                          history: seq<Command>, done: seq<Command>)
    requires i <= |q| == |builds| && Planned(q, builds, i) == Ok(done)
    ensures FailedRun(q, builds, i, server, history, done)
    decreases |q| - i
  {
    if i < |q| {
      var t := Transaction(server, history + done, q[i], builds[i]);
      if t.1.Sent? {
        DispatchStep(q, builds, i, server, history, done);
        DispatchFailed(q, builds, i + 1, server, history, done + t.0);
        FailedLater(q, builds, i, server, history, done);
      } else {
        FailedHere(q, builds, i, server, history, done);
      }
    }
  }

  /** A panic during message `i`'s own transaction. */
  lemma {:induction false} PanickedHere(q: seq<Message>, builds: seq<Result<Built>>, i: nat, server: Server,
                     history: seq<Command>, done: seq<Command>)
    requires i < |q| == |builds| && Planned(q, builds, i) == Ok(done)
    requires !Transaction(server, history + done, q[i], builds[i]).1.Sent?
    ensures PanickedRun(q, builds, i, server, history, done)
  {
    var t := Transaction(server, history + done, q[i], builds[i]);
    assert Dispatch(q, builds, i, server, history + done) == (i + 1, t.0, t.1);
    if t.1.Panicked? {
      assert t.0 == Envelope(q[i]) && AllAccepted(server, history + done, t.0) && builds[i] == Err(t.1.error) by {
        TransactionSpec(server, history + done, q[i], builds[i]);
      }
      assert PanickedAt(q, builds, server, history, done, i + 1, t.0, t.1.error);
    }
  }

  /** A panic after message `i` went through. */
  lemma {:induction false} PanickedLater(q: seq<Message>, builds: seq<Result<Built>>, i: nat, server: Server,
                      history: seq<Command>, done: seq<Command>)
    requires i < |q| == |builds| && Planned(q, builds, i) == Ok(done)
    requires Transaction(server, history + done, q[i], builds[i]).1.Sent?
    requires PanickedRun(q, builds, i + 1, server, history,
                         done + Transaction(server, history + done, q[i], builds[i]).0)
    ensures PanickedRun(q, builds, i, server, history, done)
  {
    var t := Transaction(server, history + done, q[i], builds[i]).0;
    DispatchStep(q, builds, i, server, history, done);
    DispatchAdvance(q, builds, i, server, history, done);
    var rest := Dispatch(q, builds, i + 1, server, history + (done + t));
    var d := Dispatch(q, builds, i, server, history + done);
    assert d.0 == rest.0 && d.1 == t + rest.1 && d.2 == rest.2;
    if rest.2.Panicked? {
      PanickedAtShift(q, builds, server, history, done, t, rest.0, rest.1, rest.2.error);
    }
  }

  lemma {:induction false} DispatchPanicked(q: seq<Message>, builds: seq<Result<Built>>, i: nat, server: Server,
                                            history: seq<Command>, done: seq<Command>)
    requires i <= |q| == |builds| && Planned(q, builds, i) == Ok(done)
    ensures PanickedRun(q, builds, i, server, history, done)
    decreases |q| - i
  {
    if i < |q| {
      var t := Transaction(server, history + done, q[i], builds[i]);
      if t.1.Sent? {
        DispatchStep(q, builds, i, server, history, done);
        DispatchPanicked(q, builds, i + 1, server, history, done + t.0);
        PanickedLater(q, builds, i, server, history, done);
      } else {
        PanickedHere(q, builds, i, server, history, done);
      }
    }
  }

  /** The run stopped while sending message `i`: the queue holds the
      messages after it and the trace extends the complete transactions of
      the messages before it. */
  predicate StoppedAt(s: Sender, r: Sender, builds: seq<Result<Built>>, trace: seq<Command>, i: int)
    requires |builds| == |s.messages|
  {
    && 0 <= i < |s.messages|
    && r.messages == s.messages[i + 1..]
    && Planned(s.messages, builds, i).Ok?
    && Planned(s.messages, builds, i).value < trace
  }

  /** What a whole run means for the sender: a nil error leaves the queue
      empty with every transaction planned and accepted; a refusal or a
      panic leaves the queue holding what followed the message being sent,
      the earlier messages having been sent in full; a refusal ends the
      failing message's own MAIL, RCPT, DATA and payload sequence at the
      refused command; a panic comes from a
      message whose envelope was accepted and whose attachments do not
      load. */
  lemma {:induction false} DispatchOutcome(s: Sender, r: Sender, builds: seq<Result<Built>>,
                                           server: Server, history: seq<Command>)
    requires |builds| == |s.messages|
    requires r.messages == s.messages[Dispatch(s.messages, builds, 0, server, history).0..]
    ensures var d := Dispatch(s.messages, builds, 0, server, history);
      var i := |s.messages| - |r.messages| - 1;
      && (d.2.Sent? ==>
        && r.messages == []
        && Planned(s.messages, builds, |s.messages|) == Ok(d.1)
        && AllAccepted(server, history, d.1))
      && (d.2.Failed? ==>
        && StoppedAt(s, r, builds, d.1, i)
        && d.1 <= Planned(s.messages, builds, i).value + Attempt(s.messages[i], builds[i])
        && FailedLast(server, history, d.1, d.2.error))
      && (d.2.Panicked? ==>
        && StoppedAt(s, r, builds, d.1, i)
        && d.1 == Planned(s.messages, builds, i).value + Envelope(s.messages[i])
        && builds[i] == Err(d.2.error)
        && AllAccepted(server, history, d.1))
  {
    var q := s.messages;
    var d := Dispatch(q, builds, 0, server, history);
    assert history + [] == history;
    assert [] + d.1 == d.1;
    assert |r.messages| == |q| - d.0;
    var i := |q| - |r.messages| - 1;
    match d.2
    case Sent =>
      DispatchSent(q, builds, 0, server, history, []);
    case Failed(error) =>
      DispatchFailed(q, builds, 0, server, history, []);
      assert FailedAt(q, builds, server, history, [], d.0, d.1, error);
      assert i + 1 == d.0;
      assert Planned(q, builds, i) == Planned(q, builds, d.0 - 1);
    case Panicked(error) =>
      DispatchPanicked(q, builds, 0, server, history, []);
      assert PanickedAt(q, builds, server, history, [], d.0, d.1, error);
      assert i + 1 == d.0;
      assert Planned(q, builds, i) == Planned(q, builds, d.0 - 1);
  }

  /** `Send`: one transaction per queued message, in queue order, each
      message dequeued before it is tried and built only when its turn
      comes, the run ending at the first refusal or panic. The loop agrees
      with `Dispatch`, whose meaning `DispatchOutcome` states. */
  method Send(s: Sender, server: Server, history: seq<Command>, build: (nat, Message) -> Result<Built>)
    returns (r: Sender, trace: seq<Command>, result: SendResult)
    ensures r.(messages := s.messages) == s
    ensures var d := Dispatch(s.messages, Builds(s.messages, build), 0, server, history);
      r.messages == s.messages[d.0..] && trace == d.1 && result == d.2
  {
    ghost var builds := Builds(s.messages, build);
    r := s;
    trace := [];
    var i := 0;
    assert history + [] == history;
    while i < |s.messages|
      invariant 0 <= i <= |s.messages|
      invariant r == s.(messages := s.messages[i..])
      invariant var d := Dispatch(s.messages, builds, i, server, history + trace);
        var whole := Dispatch(s.messages, builds, 0, server, history);
        whole.0 == d.0 && whole.1 == trace + d.1 && whole.2 == d.2
      decreases |s.messages| - i
    {
      r := r.(messages := s.messages[i + 1..]);
      var built := build(i, s.messages[i]);
      var t := Transaction(server, history + trace, s.messages[i], built);
      if !t.1.Sent? {
        trace := trace + t.0;
        result := t.1;
        return;
      }
      DispatchAdvance(s.messages, builds, i, server, history, trace);
      trace := trace + t.0;
      i := i + 1;
    }
    result := Sent;
  }
}
