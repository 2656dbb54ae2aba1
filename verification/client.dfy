/** The single-message client of Client.go: a sender that holds one
    prepared message and its recipients, the all-or-nothing file loader, the
    serialiser that always writes To and never Cc or Bcc, and the send
    sequence that ignores the server's answers to MAIL and RCPT. */
module Client {
  import opened Results
  import opened Strings
  import opened Mime
  import opened Smtp

  /** The sender: account, server, and the prepared message with its
      recipients. The connection lives outside the model. */
  datatype Sender = Sender(
    login: string, email: string, password: string, serverSMTP: string,
    message: string, to: seq<string>)

  // -------------------------------------------------------- attachFiles

  /** `attachFiles`: every file is read in turn. Success yields one
      attachment per path, in order, named by the path's base name; the first
      unreadable file stops the load with its error. */
  function AttachFiles(src: seq<string>, fs: FileSystem, sniffer: Sniffer): (r: Result<seq<Attachment>>)
    ensures r.Ok? <==> forall k :: 0 <= k < |src| ==> fs(src[k]).Ok?
    ensures r.Ok? ==> |r.value| == |src|
    ensures r.Ok? ==> forall k :: 0 <= k < |src| ==>
      r.value[k] == Attachment(Basename(src[k]), ContentType(sniffer, fs(src[k]).value), fs(src[k]).value)
    ensures r.Err? ==> exists i :: 0 <= i < |src| && FirstUnreadable(src, fs, i) && r.error == fs(src[i]).error
    decreases |src|
  {
    if src == [] then Ok([])
    else match fs(src[0])
      case Err(e) =>
        assert FirstUnreadable(src, fs, 0);
        Err(e)
      case Ok(payload) =>
        var a := Attachment(Basename(src[0]), ContentType(sniffer, payload), payload);
        var rest := AttachFiles(src[1..], fs, sniffer);
        if rest.Err? then
          var i :| 0 <= i < |src[1..]| && FirstUnreadable(src[1..], fs, i) && rest.error == fs(src[1..][i]).error;
          assert FirstUnreadable(src, fs, i + 1);
          Err(rest.error)
        else
          assert forall k :: 0 <= k < |src[1..]| ==> src[1..][k] == src[k + 1];
          Ok([a] + rest.value)
  }

  /** `src[i]` is the first path that cannot be read. */
  predicate FirstUnreadable(src: seq<string>, fs: FileSystem, i: int)
    requires 0 <= i < |src|
  {
    fs(src[i]).Err? && forall j :: 0 <= j < i ==> fs(src[j]).Ok?
  }

  // --------------------------------------------------------- NewMessage

  /** The header map: From, To (even for no recipients), Subject,
      MIME-Version and Date; never Cc or Bcc. */
  function Headers(email: string, subject: string, to: seq<string>, date: string): map<HeaderName, string>
  {
    map[From := email, To := Join(to, ";"), Subject := subject, MimeVersion := "1.0", Date := date]
  }

  /** The bytes `NewMessage` stores: the header block; with attachments the
      multipart preamble; the text part, always; the delimiter after it,
      always; with attachments the parts and the close suffix. */
  function Serialise(email: string, subject: string, to: seq<string>, body: string,
                     atts: seq<Attachment>, env: BuildEnv): string
  {
    var b := env.boundary;
    HeaderBlock(Headers(email, subject, to, env.date), env.order)
    + (if |atts| > 0 then MultipartPreamble(b) else "")
    + BodyPart(TextPlainHeader, body) + Delimiter(b)
    + (if |atts| > 0 then AttachmentParts(atts, b) + CloseSuffix else "")
  }

  /** `NewMessage`: loads the files, failing (the source panics) on the
      first unreadable one; otherwise stores the recipients and the
      serialised message and changes nothing else. */
  function NewMessage(s: Sender, subject: string, to: seq<string>, body: string, files: seq<string>,
                      env: BuildEnv, fs: FileSystem, sniffer: Sniffer): (r: Result<Sender>)
    ensures r.Ok? <==> AttachFiles(files, fs, sniffer).Ok?
    ensures r.Err? ==> r.error == AttachFiles(files, fs, sniffer).error
    ensures r.Ok? ==> r.value.to == to && r.value.(to := s.to, message := s.message) == s
    ensures r.Ok? ==> r.value.message
                      == Serialise(s.email, subject, to, body, AttachFiles(files, fs, sniffer).value, env)
  {
    match AttachFiles(files, fs, sniffer)
    case Err(e) => Err(e)
    case Ok(atts) => Ok(s.(to := to, message := Serialise(s.email, subject, to, body, atts, env)))
  }

  /** The header block holds exactly one line each for From, To (the
      recipients joined with `;`, possibly empty), Subject, MIME-Version and
      Date, in whatever order the map is ranged, and no Cc or Bcc line. */
  lemma HeaderRules(email: string, subject: string, to: seq<string>, date: string, order: HeaderOrder)
    ensures multiset(HeaderLines(Headers(email, subject, to, date), order)) == multiset(
      [HeaderLine(From, email)] + ([HeaderLine(To, Join(to, ";"))] + ([HeaderLine(Subject, subject)]
      + ([HeaderLine(MimeVersion, "1.0")] + [HeaderLine(Date, date)]))))
    ensures Cc !in Headers(email, subject, to, date) && Bcc !in Headers(email, subject, to, date)
  {
    var h := Headers(email, subject, to, date);
    var tail := [HeaderLine(Subject, subject)] + ([HeaderLine(MimeVersion, "1.0")] + [HeaderLine(Date, date)]);
    var present := Present(h, From) + (Present(h, To) + (Present(h, Cc)
      + (Present(h, Bcc) + (Present(h, Subject)
      + (Present(h, MimeVersion) + Present(h, Date))))));
    assert present == [HeaderLine(From, email)] + ([HeaderLine(To, Join(to, ";"))] + tail) by {
      HeadersPresent(email, subject, to, date);
      assert [] + ([] + tail) == tail;
    }
    HeaderBlockLines(h, order);
  }

  /** The line each key contributes to the block. */
  lemma HeadersPresent(email: string, subject: string, to: seq<string>, date: string)
    ensures var h := Headers(email, subject, to, date);
      && Present(h, From) == [HeaderLine(From, email)] && Present(h, To) == [HeaderLine(To, Join(to, ";"))]
      && Present(h, Cc) == [] && Present(h, Bcc) == []
      && Present(h, Subject) == [HeaderLine(Subject, subject)]
      && Present(h, MimeVersion) == [HeaderLine(MimeVersion, "1.0")] && Present(h, Date) == [HeaderLine(Date, date)]
  {
  }

  /** The text part is always followed by a delimiter, with or without
      attachments. Without attachments the message ends right there,
      `\r\n--b` with no close suffix and no multipart header; with
      attachments it ends with the close-delimiter. */
  lemma Ending(email: string, subject: string, to: seq<string>, body: string,
               atts: seq<Attachment>, env: BuildEnv)
    requires IsBoundary(env.boundary)
    ensures |atts| == 0 ==>
      Serialise(email, subject, to, body, atts, env)
        == HeaderBlock(Headers(email, subject, to, env.date), env.order)
           + BodyPart(TextPlainHeader, body) + Delimiter(env.boundary)
    ensures var out := Serialise(email, subject, to, body, atts, env);
      |atts| == 0 ==> EndsWith(out, Delimiter(env.boundary)) && !EndsWith(out, CloseSuffix)
    ensures |atts| > 0 ==>
      EndsWith(Serialise(email, subject, to, body, atts, env), DashBoundary(env.boundary) + CloseSuffix)
    ensures var b := env.boundary;
      HeaderBlock(Headers(email, subject, to, env.date), env.order)
      + (if |atts| > 0 then MultipartPreamble(b) else "")
      + BodyPart(TextPlainHeader, body) + Delimiter(b)
        <= Serialise(email, subject, to, body, atts, env)
  {
    TextThenDelimiter(email, subject, to, body, atts, env);
    if |atts| == 0 {
      EndingBare(email, subject, to, body, atts, env);
    } else {
      EndingClosed(email, subject, to, body, atts, env);
    }
  }

  /** Whether or not there are attachments, the text part and the delimiter
      after it open the output, after the headers and any preamble. */
  lemma TextThenDelimiter(email: string, subject: string, to: seq<string>, body: string,
                          atts: seq<Attachment>, env: BuildEnv)
    ensures var b := env.boundary;
      HeaderBlock(Headers(email, subject, to, env.date), env.order)
      + (if |atts| > 0 then MultipartPreamble(b) else "")
      + BodyPart(TextPlainHeader, body) + Delimiter(b)
        <= Serialise(email, subject, to, body, atts, env)
  {
    var b := env.boundary;
    var front := HeaderBlock(Headers(email, subject, to, env.date), env.order)
      + (if |atts| > 0 then MultipartPreamble(b) else "")
      + BodyPart(TextPlainHeader, body) + Delimiter(b);
    var tail := if |atts| > 0 then AttachmentParts(atts, b) + CloseSuffix else "";
    assert Serialise(email, subject, to, body, atts, env) == front + tail;
    assert (front + tail)[..|front|] == front;
  }

  /** Without attachments the output stops at the delimiter after the text. */
  lemma EndingBare(email: string, subject: string, to: seq<string>, body: string,
                   atts: seq<Attachment>, env: BuildEnv)
    requires IsBoundary(env.boundary) && |atts| == 0
    ensures Serialise(email, subject, to, body, atts, env)
      == HeaderBlock(Headers(email, subject, to, env.date), env.order)
         + BodyPart(TextPlainHeader, body) + Delimiter(env.boundary)
    ensures var out := Serialise(email, subject, to, body, atts, env);
      EndsWith(out, Delimiter(env.boundary)) && !EndsWith(out, CloseSuffix)
  {
    var b := env.boundary;
    var head := HeaderBlock(Headers(email, subject, to, env.date), env.order);
    var text := BodyPart(TextPlainHeader, body);
    assert Serialise(email, subject, to, body, atts, env) == head + text + Delimiter(b) by {
      DropEmpty(head, text, Delimiter(b));
    }
    DelimiterEnds(head + text, b);
  }

  /** With attachments the output ends with the close-delimiter. */
  lemma EndingClosed(email: string, subject: string, to: seq<string>, body: string,
                     atts: seq<Attachment>, env: BuildEnv)
    requires IsBoundary(env.boundary) && |atts| > 0
    ensures EndsWith(Serialise(email, subject, to, body, atts, env), DashBoundary(env.boundary) + CloseSuffix)
  {
    var b := env.boundary;
    var front := HeaderBlock(Headers(email, subject, to, env.date), env.order)
                 + MultipartPreamble(b)
                 + BodyPart(TextPlainHeader, body);
    var parts := AttachmentParts(atts, b);
    AttachmentPartsEnd(atts, b);
    EndsWithClosed(parts, b);
    EndsWithAppend(front + Delimiter(b), parts + CloseSuffix, DashBoundary(b) + CloseSuffix);
    assert Serialise(email, subject, to, body, atts, env) == (front + Delimiter(b)) + (parts + CloseSuffix);
  }

  /** Every user field copied into the output is free of `p`. */
  predicate FieldsAvoid(email: string, subject: string, to: seq<string>, body: string,
                        atts: seq<Attachment>, date: string, p: string)
  {
    && Avoids(email, p) && Avoids(subject, p) && Avoids(Join(to, ";"), p)
    && Avoids(body, p) && Avoids(date, p)
    && forall k :: 0 <= k < |atts| ==> AttachmentAvoids(atts[k], p)
  }

  /** With N >= 1 attachments, and no user field containing it, the
      dash-boundary occurs N + 2 times; without attachments it still occurs
      once, in the delimiter after the text. */
  lemma DelimiterCount(email: string, subject: string, to: seq<string>, body: string,
                       atts: seq<Attachment>, env: BuildEnv)
    requires IsBoundary(env.boundary)
    requires FieldsAvoid(email, subject, to, body, atts, env.date, DashBoundary(env.boundary))
    ensures Occurrences(DashBoundary(env.boundary), Serialise(email, subject, to, body, atts, env))
         == if |atts| == 0 then 1 else |atts| + 2
  {
    var b := env.boundary;
    var front := HeaderBlock(Headers(email, subject, to, env.date), env.order)
                 + (if |atts| > 0 then MultipartPreamble(b) else "")
                 + BodyPart(TextPlainHeader, body);
    var tail := if |atts| > 0 then AttachmentParts(atts, b) + CloseSuffix else "";
    var p := DashBoundary(b);
    assert Occurrences(p, front) == if |atts| == 0 then 0 else 1 by {
      FrontCount(email, subject, to, body, atts, env);
    }
    assert Occurrences(p, tail) == |atts| && StartsForeign(tail, p) by {
      if |atts| > 0 {
        ClosedPartsCount(atts, b);
        PiecesOpenForeign(b, TextPlainHeader, body, atts);
      }
    }
    DelimiterBetween(b, front, tail, |atts|);
  }

  /** A delimiter between a front holding the dash-boundary once (or not at
      all, when `n` is zero) and a tail holding it `n` times. */
  lemma DelimiterBetween(b: string, front: string, tail: string, n: nat)
    requires IsBoundary(b)
    requires Occurrences(DashBoundary(b), front) == if n == 0 then 0 else 1
    requires Occurrences(DashBoundary(b), tail) == n
    requires StartsForeign(tail, DashBoundary(b))
    ensures Occurrences(DashBoundary(b), front + Delimiter(b) + tail) == if n == 0 then 1 else n + 2
  {
    DelimiterOnce(b);
    PiecesOpenForeign(b, TextPlainHeader, "", []);
    OccurrencesConcat3(DashBoundary(b), front, Delimiter(b), tail);
  }

  /** Before the delimiter that follows the text, the dash-boundary occurs
      once with attachments (in the preamble) and not at all without. */
  lemma FrontCount(email: string, subject: string, to: seq<string>, body: string,
                   atts: seq<Attachment>, env: BuildEnv)
    requires IsBoundary(env.boundary)
    requires FieldsAvoid(email, subject, to, body, atts, env.date, DashBoundary(env.boundary))
    ensures var b := env.boundary;
      Occurrences(DashBoundary(b), HeaderBlock(Headers(email, subject, to, env.date), env.order)
                 + (if |atts| > 0 then MultipartPreamble(b) else "")
                 + BodyPart(TextPlainHeader, body))
      == if |atts| == 0 then 0 else 1
  {
    var b := env.boundary;
    var p := DashBoundary(b);
    var block := HeaderBlock(Headers(email, subject, to, env.date), env.order);
    var text := BodyPart(TextPlainHeader, body);
    assert Avoids(block, p) && Occurrences(p, text) == 0 && StartsForeign(text, p) by {
      HeadersAvoidBoundary(email, subject, to, env.date, b);
      HeaderBlockCount(Headers(email, subject, to, env.date), env.order, b);
      BodyPartCount(TextPlainHeader, body, b);
      PiecesOpenForeign(b, TextPlainHeader, body, atts);
    }
    if |atts| > 0 {
      assert Occurrences(p, MultipartPreamble(b)) == 1 && StartsForeign(MultipartPreamble(b), p) by {
        PreambleCount(b);
        PiecesOpenForeign(b, TextPlainHeader, body, atts);
      }
      OccurrencesConcat3(p, block, MultipartPreamble(b), text);
    } else {
      assert block + "" == block;
      OccurrencesConcat(p, block, text);
    }
  }

  lemma HeadersAvoidBoundary(email: string, subject: string, to: seq<string>, date: string, b: string)
    requires IsBoundary(b)
    requires Avoids(email, DashBoundary(b)) && Avoids(subject, DashBoundary(b))
    requires Avoids(Join(to, ";"), DashBoundary(b)) && Avoids(date, DashBoundary(b))
    ensures HeadersAvoid(Headers(email, subject, to, date), DashBoundary(b))
  {
    assert DoubleDashFree("1.0");
    DoubleDashFreeAvoids(DashBoundary(b), "1.0");
  }

  // --------------------------------------------------------------- Send

  datatype Outcome = Delivered | Panicked(error: string)

  /** `Send`: MAIL with the sender's address and one RCPT per recipient,
      whatever the server answers to them; then DATA. A refused DATA panics;
      otherwise the stored message is written and closed, a refused close
      panics with the close's error. QUIT is deferred, so it is sent in
      every case. */
  function Send(s: Sender, server: Server, history: seq<Command>): (r: (seq<Command>, Outcome))
    ensures |r.0| >= |s.to| + 3
    ensures r.0[0] == Mail(s.email) && r.0[1..|s.to| + 1] == Rcpts(s.to) && r.0[|s.to| + 1] == Data
    ensures r.0[|r.0| - 1] == Quit
    ensures var dataReply := server(history + r.0[..|s.to| + 1], Data);
      && (dataReply.Rejected? ==> |r.0| == |s.to| + 3 && r.1 == Panicked(dataReply.error))
      && (dataReply.Accepted? ==> |r.0| == |s.to| + 4 && r.0[|s.to| + 2] == Payload(s.message))
    ensures r.1.Delivered? <==>
      && server(history + r.0[..|s.to| + 1], Data).Accepted?
      && server(history + r.0[..|s.to| + 2], Payload(s.message)).Accepted?
    ensures var closeReply := server(history + r.0[..|s.to| + 2], Payload(s.message));
      server(history + r.0[..|s.to| + 1], Data).Accepted? && closeReply.Rejected? ==>
        r.1 == Panicked(closeReply.error)
  {
    var envelope := [Mail(s.email)] + Rcpts(s.to);
    var n := |s.to|;
    assert |envelope| == n + 1;
    match server(history + envelope, Data)
    case Rejected(e) =>
      var sent := envelope + [Data] + [Quit];
      assert sent[..n + 1] == envelope && sent[1..n + 1] == Rcpts(s.to);
      (sent, Panicked(e))
    case Accepted =>
      var sent := envelope + [Data] + [Payload(s.message)] + [Quit];
      assert sent[..n + 1] == envelope && sent[1..n + 1] == Rcpts(s.to);
      assert sent[..n + 2] == envelope + [Data];
      assert history + sent[..n + 2] == history + envelope + [Data];
      match server(history + envelope + [Data], Payload(s.message))
      case Rejected(e) => (sent, Panicked(e))
      case Accepted => (sent, Delivered)
  }

  /** MAIL and RCPT errors are ignored: two servers that answer every other
      command alike lead to the same commands and the same outcome. */
  lemma SendIgnoresEnvelopeReplies(s: Sender, server1: Server, server2: Server, history: seq<Command>)
    requires forall h: seq<Command>, c: Command :: !c.Mail? && !c.Rcpt? ==> server1(h, c) == server2(h, c)
    ensures Send(s, server1, history) == Send(s, server2, history)
  {
  }
}
