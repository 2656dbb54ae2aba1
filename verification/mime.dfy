/** Pieces of the wire format shared by the three serialiser variants: the
    attachment record and content classification, the header block written
    from a Go map, and the literal `WriteString` fragments of the multipart
    layout (RFC 2046 section 5.1). The lemmas here count occurrences of the
    dash-boundary `--b` in each fragment, so that each variant can add them up. */
module Mime {
  import opened Results
  import opened Strings
  import opened Encoding

  /** A file attached to a message: base name, detected MIME type, raw bytes. */
  datatype Attachment = Attachment(filename: string, mime: string, data: seq<byte>)

  /** The content classifiers the source calls: a signature matcher that may
      find nothing (an error or the "unknown" type), and a heuristic that
      always answers. */
  datatype Sniffer = Sniffer(signature: seq<byte> -> Option<string>, detect: seq<byte> -> string)

  /** The file system as seen by a whole-file read: bytes or an error. */
  type FileSystem = string -> Result<seq<byte>>

  /** MIME type of a payload: the signature match when there is one, the
      heuristic's answer otherwise. */
  function ContentType(sniffer: Sniffer, payload: seq<byte>): string
  {
    match sniffer.signature(payload)
    case Some(t) => t
    case None => sniffer.detect(payload)
  }

  // ------------------------------------------------------------ headers

  /** The keys any variant puts in its header map. */
  datatype HeaderName = From | To | Cc | Bcc | Subject | MimeVersion | Date

  /** The key as written on the wire. */
  function Name(k: HeaderName): string
  {
    match k
    case From => "From"
    case To => "To"
    case Cc => "Cc"
    case Bcc => "Bcc"
    case Subject => "Subject"
    case MimeVersion => "MIME-Version"
    case Date => "Date"
  }

  const AllHeaders: seq<HeaderName> := [From, To, Cc, Bcc, Subject, MimeVersion, Date]

  /** An iteration order of a Go map holding some of the header keys: the
      present keys are visited in the order they take in a permutation of all
      seven. Every order Go may choose is of this form. */
  type HeaderOrder = o: seq<HeaderName> | IsHeaderOrder(o)
    witness [From, To, Cc, Bcc, Subject, MimeVersion, Date]

  predicate IsHeaderOrder(o: seq<HeaderName>)
  {
    multiset(o) == multiset(AllHeaders)
  }

  /** One header line, `name: value` and CRLF. */
  function HeaderLine(k: HeaderName, value: string): string
  {
    Name(k) + ": " + value + "\r\n"
  }

  /** The line for `k` if the map holds it. */
  function Present(headers: map<HeaderName, string>, k: HeaderName): seq<string>
  {
    if k in headers then [HeaderLine(k, headers[k])] else []
  }

  /** The lines written while ranging over `headers` in the given key order. */
  function HeaderLines(headers: map<HeaderName, string>, order: seq<HeaderName>): seq<string>
    decreases |order|
  {
    if order == [] then [] else Present(headers, order[0]) + HeaderLines(headers, order[1..])
  }

  function Concat(parts: seq<string>): string
    decreases |parts|
  {
    if parts == [] then "" else parts[0] + Concat(parts[1..])
  }

  /** The header block exactly as written to the buffer. */
  function HeaderBlock(headers: map<HeaderName, string>, order: HeaderOrder): string
  {
    Concat(HeaderLines(headers, order))
  }

  lemma {:induction false} HeaderLinesAppend(headers: map<HeaderName, string>, o1: seq<HeaderName>, o2: seq<HeaderName>)
    ensures HeaderLines(headers, o1 + o2) == HeaderLines(headers, o1) + HeaderLines(headers, o2)
    decreases |o1|
  {
    if o1 != [] {
      assert (o1 + o2)[1..] == o1[1..] + o2;
      HeaderLinesAppend(headers, o1[1..], o2);
    } else {
      assert o1 + o2 == o2;
    }
  }

  /** Taking one key out of the order takes its line out of the lines. */
  lemma HeaderLinesRemoveAt(headers: map<HeaderName, string>, o: seq<HeaderName>, j: int)
    requires 0 <= j < |o|
    ensures multiset(HeaderLines(headers, o))
         == multiset(Present(headers, o[j])) + multiset(HeaderLines(headers, o[..j] + o[j + 1..]))
  {
    assert o == o[..j] + [o[j]] + o[j + 1..];
    HeaderLinesAppend(headers, o[..j] + [o[j]], o[j + 1..]);
    HeaderLinesAppend(headers, o[..j], [o[j]]);
    HeaderLinesAppend(headers, o[..j], o[j + 1..]);
    assert HeaderLines(headers, [o[j]]) == Present(headers, o[j]);
  }

  /** The lines written do not depend on the order of the keys, only on which
      keys are ranged over: two orders with the same keys give the same lines
      up to permutation. */
  lemma {:induction false} HeaderLinesPermutation(headers: map<HeaderName, string>, o1: seq<HeaderName>, o2: seq<HeaderName>)
    requires multiset(o1) == multiset(o2)
    ensures multiset(HeaderLines(headers, o1)) == multiset(HeaderLines(headers, o2))
    decreases |o1|
  {
    if o1 != [] {
      var j := FindIn(o2, o1[0]);
      var rest := o2[..j] + o2[j + 1..];
      RestPermutation(o1, o2, j);
      HeaderLinesPermutation(headers, o1[1..], rest);
      PermutationStep(headers, o1, o2, j);
    } else {
      EmptyPermutation(o1, o2);
    }
  }

  /** Taking the first key of `o1` and the same key out of `o2` leaves two
      permutations of each other. */
  lemma RestPermutation(o1: seq<HeaderName>, o2: seq<HeaderName>, j: nat)
    requires o1 != [] && j < |o2| && o2[j] == o1[0] && multiset(o1) == multiset(o2)
    ensures multiset(o1[1..]) == multiset(o2[..j] + o2[j + 1..])
  {
    var rest := o2[..j] + o2[j + 1..];
    assert multiset(o1) == multiset(o1[1..]) + multiset{o1[0]} by {
      assert o1 == [o1[0]] + o1[1..];
    }
    assert multiset(o2) == multiset(rest) + multiset{o2[j]} by {
      assert o2 == o2[..j] + [o2[j]] + o2[j + 1..];
    }
    CancelOne(multiset(o1[1..]), multiset(rest), o1[0]);
  }

  /** The same element taken from two equal multisets leaves equal ones. */
  lemma CancelOne<T>(a: multiset<T>, b: multiset<T>, x: T)
    requires a + multiset{x} == b + multiset{x}
    ensures a == b
  {
    assert a == (a + multiset{x}) - multiset{x};
    assert b == (b + multiset{x}) - multiset{x};
  }

  /** The inductive step: the lines of the first key, put back on both sides. */
  lemma PermutationStep(headers: map<HeaderName, string>, o1: seq<HeaderName>, o2: seq<HeaderName>, j: nat)
    requires o1 != [] && j < |o2| && o2[j] == o1[0]
    requires multiset(HeaderLines(headers, o1[1..])) == multiset(HeaderLines(headers, o2[..j] + o2[j + 1..]))
    ensures multiset(HeaderLines(headers, o1)) == multiset(HeaderLines(headers, o2))
  {
    assert HeaderLines(headers, o1) == Present(headers, o1[0]) + HeaderLines(headers, o1[1..]);
    HeaderLinesRemoveAt(headers, o2, j);
  }

  /** Only the empty sequence is a permutation of the empty sequence. */
  lemma EmptyPermutation(o1: seq<HeaderName>, o2: seq<HeaderName>)
    requires o1 == [] && multiset(o1) == multiset(o2)
    ensures o2 == []
  {
    assert |multiset(o2)| == 0;
  }

  /** A position of `k` in `o`. */
  function FindIn(o: seq<HeaderName>, k: HeaderName): (j: nat)
    requires k in multiset(o)
    ensures j < |o| && o[j] == k
  {
    if o[0] == k then 0
    else
      assert o == [o[0]] + o[1..];
      1 + FindIn(o[1..], k)
  }

  lemma HeaderLinesStep(headers: map<HeaderName, string>, o: seq<HeaderName>, i: nat)
    requires i < |o|
    ensures HeaderLines(headers, o[i..]) == Present(headers, o[i]) + HeaderLines(headers, o[i + 1..])
  {
    assert o[i..][1..] == o[i + 1..];
  }

  /** Ranging over seven keys writes the line of each present one in turn. */
  lemma HeaderLinesSeven(headers: map<HeaderName, string>, o: seq<HeaderName>)
    requires |o| == 7
    ensures HeaderLines(headers, o) ==
      Present(headers, o[0]) + (Present(headers, o[1]) + (Present(headers, o[2])
      + (Present(headers, o[3]) + (Present(headers, o[4])
      + (Present(headers, o[5]) + Present(headers, o[6]))))))
  {
    var h := headers;
    assert HeaderLines(h, o[6..]) == Present(h, o[6]) by {
      HeaderLinesStep(h, o, 6);
      assert o[7..] == [];
    }
    assert HeaderLines(h, o[5..]) == Present(h, o[5]) + Present(h, o[6]) by {
      HeaderLinesStep(h, o, 5);
    }
    assert HeaderLines(h, o[4..]) == Present(h, o[4]) + (Present(h, o[5]) + Present(h, o[6])) by {
      HeaderLinesStep(h, o, 4);
    }
    assert HeaderLines(h, o[3..]) == Present(h, o[3]) + (Present(h, o[4])
      + (Present(h, o[5]) + Present(h, o[6]))) by {
      HeaderLinesStep(h, o, 3);
    }
    assert HeaderLines(h, o[2..]) == Present(h, o[2]) + (Present(h, o[3]) + (Present(h, o[4])
      + (Present(h, o[5]) + Present(h, o[6])))) by {
      HeaderLinesStep(h, o, 2);
    }
    assert HeaderLines(h, o[1..]) == Present(h, o[1]) + (Present(h, o[2]) + (Present(h, o[3])
      + (Present(h, o[4]) + (Present(h, o[5]) + Present(h, o[6]))))) by {
      HeaderLinesStep(h, o, 1);
    }
    HeaderLinesStep(h, o, 0);
    assert o[0..] == o;
  }

  /** In the canonical order the lines are simply those of the present keys. */
  lemma CanonicalHeaderLines(headers: map<HeaderName, string>)
    ensures HeaderLines(headers, AllHeaders) ==
      Present(headers, From) + (Present(headers, To) + (Present(headers, Cc)
      + (Present(headers, Bcc) + (Present(headers, Subject)
      + (Present(headers, MimeVersion) + Present(headers, Date))))))
  {
    HeaderLinesSeven(headers, AllHeaders);
  }

  /** Whatever order the map is ranged in, the block holds exactly the lines
      of the present keys, each once. */
  lemma HeaderBlockLines(headers: map<HeaderName, string>, order: HeaderOrder)
    ensures multiset(HeaderLines(headers, order)) == multiset(
      Present(headers, From) + (Present(headers, To) + (Present(headers, Cc)
      + (Present(headers, Bcc) + (Present(headers, Subject)
      + (Present(headers, MimeVersion) + Present(headers, Date)))))))
  {
    HeaderLinesPermutation(headers, order, AllHeaders);
    CanonicalHeaderLines(headers);
  }

  // ---------------------------------------------------- multipart layout

  /** A boundary token as both generators produce it: non-empty lower-case
      hex (16 random bytes in one variant, the multipart writer's 30 in the
      others). */
  predicate IsBoundary(b: string)
  {
    |b| > 0 && forall i :: 0 <= i < |b| ==> IsHexDigit(b[i])
  }

  /** The dash-boundary `--b` of RFC 2046 section 5.1.1, the text every
      delimiter line starts with. */
  function DashBoundary(b: string): string
  {
    "--" + b
  }

  /** The inputs that every serialiser copies into its output verbatim. */
  datatype BuildEnv = BuildEnv(boundary: string, date: string, order: HeaderOrder)

  const MultipartOpen: string := "Content-Type: multipart/mixed; boundary=\""
  const BlankLine: string := "\r\n\r\n"
  const CRLF: string := "\r\n"
  const TextPlainHeader: string := "Content-Type: text/plain; charset=utf-8\r\n"
  const TextHtmlHeader: string := "Content-Type: text/html; charset=utf-8\r\n"
  const MimeVersionLine: string := "MIME-Version: 1.0\r\n"
  const PartContentType: string := "\r\nContent-Type: "
  const Base64EncodingLine: string := "Content-Transfer-Encoding: base64\r\n"
  const DispositionOpen: string := "Content-Disposition: attachment; filename=\""
  const Quote: string := "\""
  /** The suffix that turns the last delimiter into the close-delimiter. */
  const CloseSuffix: string := "--"

  /** The top-level multipart header, a blank line and the first delimiter. */
  function MultipartPreamble(b: string): string
  {
    MultipartOpen + b + Quote + BlankLine + DashBoundary(b) + CRLF
  }

  /** A body part header for text (`TextPlainHeader` or `TextHtmlHeader`),
      its own MIME-Version line, a blank line and the text. */
  function BodyPart(header: string, text: string): string
  {
    header + MimeVersionLine + CRLF + text
  }

  /** CRLF and a dash-boundary: the delimiter written after the body text. */
  function Delimiter(b: string): string
  {
    CRLF + DashBoundary(b)
  }

  /** One attachment: its part headers, a blank line, the base64 payload, a
      blank line and the dash-boundary that ends it. */
  function AttachmentPart(a: Attachment, b: string): string
  {
    PartHeader(a) + Base64Encode(a.data) + BlankLine + DashBoundary(b)
  }

  /** The headers of an attachment part, up to the blank line before the
      payload. */
  function PartHeader(a: Attachment): string
  {
    PartContentType + a.mime + CRLF
    + Base64EncodingLine
    + MimeVersionLine
    + DispositionOpen + a.filename + Quote
    + BlankLine
  }

  /** The attachment parts in insertion order. */
  function AttachmentParts(atts: seq<Attachment>, b: string): string
    decreases |atts|
  {
    if atts == [] then "" else AttachmentPart(atts[0], b) + AttachmentParts(atts[1..], b)
  }

  /** The parts split around the k-th one: those before it, it, those after. */
  lemma {:induction false} AttachmentPartsSplit(atts: seq<Attachment>, k: nat, b: string)
    requires k < |atts|
    ensures AttachmentParts(atts, b)
         == AttachmentParts(atts[..k], b) + AttachmentPart(atts[k], b) + AttachmentParts(atts[k + 1..], b)
    decreases k
  {
    if k == 0 {
      assert atts[..0] == [];
      assert atts[1..] == atts[k + 1..];
    } else {
      var rest := atts[1..];
      var head := AttachmentPart(atts[0], b);
      AttachmentPartsSplit(rest, k - 1, b);
      assert rest[..k - 1] == atts[..k][1..];
      assert rest[k - 1] == atts[k];
      assert rest[k..] == atts[k + 1..];
      var before := AttachmentParts(rest[..k - 1], b);
      var at := AttachmentPart(atts[k], b);
      var after := AttachmentParts(atts[k + 1..], b);
      assert AttachmentParts(atts[..k], b) == head + before;
      assert AttachmentParts(atts, b) == head + (before + at + after);
      AppendAssoc(head, before + at, after);
      AppendAssoc(head, before, at);
    }
  }

  /** Every attachment part carries its type, the base64 encoding label, its
      file name and a payload that is the base64 of its bytes: a payload of
      4 * ceil(n / 3) characters that decodes back to exactly those bytes. */
  lemma AttachmentPartPayload(a: Attachment, b: string)
    ensures exists payload ::
      && AttachmentPart(a, b) == PartHeader(a) + payload + BlankLine + DashBoundary(b)
      && |payload| == 4 * ((|a.data| + 2) / 3)
      && Base64Decode(payload) == Some(a.data)
  {
    Base64RoundTrip(a.data);
    var payload := Base64Encode(a.data);
    assert AttachmentPart(a, b) == PartHeader(a) + payload + BlankLine + DashBoundary(b);
  }

  /** With at least one attachment the parts end with a dash-boundary, so the
      close suffix yields the close-delimiter `--b--`. */
  lemma {:induction false} AttachmentPartsEnd(atts: seq<Attachment>, b: string)
    requires |atts| > 0
    ensures EndsWith(AttachmentParts(atts, b), BlankLine + DashBoundary(b))
    decreases |atts|
  {
    var tail := BlankLine + DashBoundary(b);
    var a := atts[0];
    var head := PartContentType + a.mime + CRLF + Base64EncodingLine + MimeVersionLine
                + DispositionOpen + a.filename + Quote + BlankLine + Base64Encode(a.data);
    assert AttachmentPart(a, b) == head + tail;
    var rest := AttachmentParts(atts[1..], b);
    if |atts| > 1 {
      AttachmentPartsEnd(atts[1..], b);
      EndsWithAppend(AttachmentPart(a, b), rest, tail);
    } else {
      assert rest == [];
      assert AttachmentParts(atts, b) == head + tail;
    }
  }

  lemma EndsWithAppend(x: string, y: string, suffix: string)
    requires EndsWith(y, suffix)
    ensures EndsWith(x + y, suffix)
  {
    assert (x + y)[|x + y| - |suffix|..] == y[|y| - |suffix|..];
  }

  /** Text closed by a delimiter ends with it, and so not with the close
      suffix: its last character is a hex digit, not a dash. */
  lemma DelimiterEnds(s: string, b: string)
    requires IsBoundary(b)
    ensures EndsWith(s + Delimiter(b), Delimiter(b)) && !EndsWith(s + Delimiter(b), CloseSuffix)
  {
    var d := Delimiter(b);
    assert d[|d| - |d|..] == d;
    EndsWithAppend(s, d, d);
    assert (s + d)[|s + d| - 1] == b[|b| - 1];
    assert IsHexDigit(b[|b| - 1]);
  }

  predicate EndsWith(s: string, suffix: string)
  {
    |suffix| <= |s| && s[|s| - |suffix|..] == suffix
  }

  /** A text ending in a blank line and a dash-boundary, once the close
      suffix is added, ends in the close-delimiter. */
  lemma EndsWithClosed(s: string, b: string)
    requires EndsWith(s, BlankLine + DashBoundary(b))
    ensures EndsWith(s + CloseSuffix, DashBoundary(b) + CloseSuffix)
  {
    var n := |DashBoundary(b) + CloseSuffix|;
    assert (s + CloseSuffix)[|s + CloseSuffix| - n..] == s[|s| - |DashBoundary(b)|..] + CloseSuffix;
  }

  // ------------------------------------------------- counting delimiters

  /** A character that is neither a dash nor a hex digit is foreign to every
      dash-boundary, so no occurrence can straddle it. */
  lemma Foreign(c: char, b: string)
    requires IsBoundary(b) && c != '-' && !IsHexDigit(c)
    ensures c !in DashBoundary(b)
  {
  }

  lemma PreambleLiteralsDashFree()
    ensures DoubleDashFree(MultipartOpen) && DoubleDashFree(BlankLine) && DoubleDashFree(CRLF)
    ensures DoubleDashFree(Quote) && DoubleDashFree(": ")
  {
  }

  lemma BodyLiteralsDashFree()
    ensures DoubleDashFree(TextPlainHeader) && DoubleDashFree(TextHtmlHeader)
    ensures DoubleDashFree(MimeVersionLine)
  {
  }

  lemma PartLiteralsDashFree()
    ensures DoubleDashFree(PartContentType) && DoubleDashFree(Base64EncodingLine)
  {
  }

  lemma DispositionDashFree()
    ensures DoubleDashFree(DispositionOpen)
  {
  }

  lemma HeaderNamesDashFree(k: HeaderName)
    ensures DoubleDashFree(Name(k))
  {
  }

  /** None of the fixed texts of the layout contains a dash-boundary. */
  lemma LiteralsAvoid(b: string)
    requires IsBoundary(b)
    ensures Avoids(MultipartOpen, DashBoundary(b)) && Avoids(BlankLine, DashBoundary(b))
    ensures Avoids(CRLF, DashBoundary(b)) && Avoids(Quote, DashBoundary(b))
    ensures Avoids(TextPlainHeader, DashBoundary(b)) && Avoids(TextHtmlHeader, DashBoundary(b))
    ensures Avoids(MimeVersionLine, DashBoundary(b)) && Avoids(PartContentType, DashBoundary(b))
    ensures Avoids(Base64EncodingLine, DashBoundary(b)) && Avoids(DispositionOpen, DashBoundary(b))
    ensures Avoids(": ", DashBoundary(b))
  {
    var p := DashBoundary(b);
    PreambleLiteralsDashFree();
    BodyLiteralsDashFree();
    PartLiteralsDashFree();
    DispositionDashFree();
    DoubleDashFreeAvoids(p, MultipartOpen);
    DoubleDashFreeAvoids(p, BlankLine);
    DoubleDashFreeAvoids(p, CRLF);
    DoubleDashFreeAvoids(p, Quote);
    DoubleDashFreeAvoids(p, TextPlainHeader);
    DoubleDashFreeAvoids(p, TextHtmlHeader);
    DoubleDashFreeAvoids(p, MimeVersionLine);
    DoubleDashFreeAvoids(p, PartContentType);
    DoubleDashFreeAvoids(p, Base64EncodingLine);
    DoubleDashFreeAvoids(p, DispositionOpen);
    DoubleDashFreeAvoids(p, ": ");
  }

  /** Seam characters that occur in the layout. */
  lemma SeamsForeign(b: string)
    requires IsBoundary(b)
    ensures '\r' !in DashBoundary(b) && '\n' !in DashBoundary(b) && '"' !in DashBoundary(b)
    ensures ' ' !in DashBoundary(b) && 'C' !in DashBoundary(b) && 'M' !in DashBoundary(b)
    ensures ':' !in DashBoundary(b)
  {
    Foreign('\r', b);
    Foreign('\n', b);
    Foreign('"', b);
    Foreign(' ', b);
    Foreign('C', b);
    Foreign('M', b);
    Foreign(':', b);
  }

  lemma DashBoundaryOnce(b: string)
    requires IsBoundary(b)
    ensures Occurrences(DashBoundary(b), DashBoundary(b)) == 1
  {
    DelimiterOccursOnce(b);
  }

  /** The boundary itself, without its dashes, holds no dash-boundary. */
  lemma BoundaryAvoids(b: string)
    requires IsBoundary(b)
    ensures Avoids(b, DashBoundary(b))
  {
    assert |b| < |DashBoundary(b)|;
  }

  /** The preamble holds exactly one delimiter: the quoted boundary in the
      Content-Type parameter is not preceded by dashes. */
  lemma PreambleCount(b: string)
    requires IsBoundary(b)
    ensures Occurrences(DashBoundary(b), MultipartPreamble(b)) == 1
  {
    PreambleHeadAvoids(b);
    DelimiterLineOnce(MultipartOpen + b + Quote + BlankLine, b);
  }

  /** A delimiter line at the start of a line, after text free of the
      dash-boundary, holds the only occurrence. */
  lemma DelimiterLineOnce(head: string, b: string)
    requires IsBoundary(b) && Avoids(head, DashBoundary(b))
    requires head == [] || head[|head| - 1] == '\n'
    ensures Occurrences(DashBoundary(b), head + DashBoundary(b) + CRLF) == 1
  {
    DashBoundaryAfter(head, b);
    CrlfForeign(b);
    AppendAvoiding(DashBoundary(b), head + DashBoundary(b), CRLF);
  }

  /** A dash-boundary after text that holds none and ends a line is the one copy. */
  lemma DashBoundaryAfter(head: string, b: string)
    requires IsBoundary(b) && Avoids(head, DashBoundary(b))
    requires head == [] || head[|head| - 1] == '\n'
    ensures Occurrences(DashBoundary(b), head + DashBoundary(b)) == 1
  {
    SeamsForeign(b);
    DashBoundaryOnce(b);
    OccurrencesConcat(DashBoundary(b), head, DashBoundary(b));
  }

  /** A line break neither holds a dash-boundary nor can complete one. */
  lemma CrlfForeign(b: string)
    requires IsBoundary(b)
    ensures Avoids(CRLF, DashBoundary(b)) && StartsForeign(CRLF, DashBoundary(b))
  {
    LiteralsAvoid(b);
    SeamsForeign(b);
  }

  /** The preamble up to its first delimiter holds none and ends a line. */
  lemma PreambleHeadAvoids(b: string)
    requires IsBoundary(b)
    ensures var head := MultipartOpen + b + Quote + BlankLine;
      Avoids(head, DashBoundary(b)) && head[|head| - 1] == '\n'
  {
    var p := DashBoundary(b);
    var s1 := MultipartOpen + b;
    OpenAvoids(b);
    LiteralsAvoid(b);
    SeamsForeign(b);
    OccurrencesConcat(p, s1, Quote);
    OccurrencesConcat(p, s1 + Quote, BlankLine);
  }

  /** The multipart header up to the end of the boundary parameter holds no
      dash-boundary: the parameter is not preceded by dashes. */
  lemma OpenAvoids(b: string)
    requires IsBoundary(b)
    ensures Avoids(MultipartOpen + b, DashBoundary(b))
  {
    var p := DashBoundary(b);
    assert Avoids(MultipartOpen, p) by {
      PreambleLiteralsDashFree();
      DoubleDashFreeAvoids(p, MultipartOpen);
    }
    BoundaryAvoids(b);
    SeamsForeign(b);
    assert MultipartOpen[|MultipartOpen| - 1] == '"';
    OccurrencesConcat(p, MultipartOpen, b);
  }

  lemma DelimiterOnce(b: string)
    requires IsBoundary(b)
    ensures Occurrences(DashBoundary(b), Delimiter(b)) == 1
  {
    LiteralsAvoid(b);
    SeamsForeign(b);
    DashBoundaryOnce(b);
    OccurrencesConcat(DashBoundary(b), CRLF, DashBoundary(b));
  }

  /** A text body part holds a delimiter only if its text does. */
  lemma BodyPartCount(header: string, text: string, b: string)
    requires IsBoundary(b)
    requires header == TextPlainHeader || header == TextHtmlHeader
    requires Avoids(text, DashBoundary(b))
    ensures Avoids(BodyPart(header, text), DashBoundary(b))
  {
    var p := DashBoundary(b);
    var s2 := header + MimeVersionLine + CRLF;
    assert Avoids(s2, p) && s2[|s2| - 1] == '\n' by {
      LiteralsAvoid(b);
      SeamsForeign(b);
      OccurrencesConcat(p, header, MimeVersionLine);
      OccurrencesConcat(p, header + MimeVersionLine, CRLF);
    }
    assert Avoids(s2 + text, p) by {
      SeamsForeign(b);
      OccurrencesConcat(p, s2, text);
    }
  }

  /** The attachment fields copied verbatim into its part. */
  predicate AttachmentAvoids(a: Attachment, p: string)
  {
    Avoids(a.mime, p) && Avoids(a.filename, p)
  }

  /** Each attachment part ends with exactly one delimiter and holds no other. */
  lemma AttachmentPartCount(a: Attachment, b: string)
    requires IsBoundary(b) && AttachmentAvoids(a, DashBoundary(b))
    ensures Occurrences(DashBoundary(b), AttachmentPart(a, b)) == 1
  {
    var p := DashBoundary(b);
    var front := PartHeader(a) + Base64Encode(a.data);
    HeadPayloadAvoids(a, b);
    BlankDelimiterOnce(b);
    OccurrencesConcat(p, front, BlankLine + p);
    AppendAssoc(front, BlankLine, p);
  }

  /** A blank line and a dash-boundary: one copy, opening foreign to it. */
  lemma BlankDelimiterOnce(b: string)
    requires IsBoundary(b)
    ensures Occurrences(DashBoundary(b), BlankLine + DashBoundary(b)) == 1
    ensures StartsForeign(BlankLine + DashBoundary(b), DashBoundary(b))
  {
    var p := DashBoundary(b);
    BlankLineAvoids(b);
    DashBoundaryOnce(b);
    OccurrencesConcat(p, BlankLine, p);
    assert (BlankLine + p)[0] == '\r';
  }

  /** A blank line holds no dash-boundary, and neither of its characters
      occurs in one. */
  lemma BlankLineAvoids(b: string)
    requires IsBoundary(b)
    ensures Avoids(BlankLine, DashBoundary(b))
    ensures '\r' !in DashBoundary(b) && '\n' !in DashBoundary(b)
  {
    assert DoubleDashFree(BlankLine);
    DoubleDashFreeAvoids(DashBoundary(b), BlankLine);
    Foreign('\r', b);
    Foreign('\n', b);
  }

  /** The part headers and the encoded payload together hold no dash-boundary. */
  lemma HeadPayloadAvoids(a: Attachment, b: string)
    requires IsBoundary(b) && AttachmentAvoids(a, DashBoundary(b))
    ensures Avoids(PartHeader(a) + Base64Encode(a.data), DashBoundary(b))
  {
    var p := DashBoundary(b);
    var payload := Base64Encode(a.data);
    PartHeaderAvoids(a, b);
    assert Avoids(payload, p) by {
      Base64HasNoDash(a.data);
      DoubleDashFreeAvoids(p, payload);
    }
    SeamsForeign(b);
    OccurrencesConcat(p, PartHeader(a), payload);
  }

  /** The part headers hold no dash-boundary, provided the type and name do
      not, and end with a line feed. */
  lemma PartHeaderAvoids(a: Attachment, b: string)
    requires IsBoundary(b) && AttachmentAvoids(a, DashBoundary(b))
    ensures Avoids(PartHeader(a), DashBoundary(b))
    ensures PartHeader(a)[|PartHeader(a)| - 1] == '\n'
  {
    var p := DashBoundary(b);
    LiteralsAvoid(b);
    SeamsForeign(b);
    var s0 := PartContentType;
    var s1 := s0 + a.mime;
    var s2 := s1 + CRLF;
    var s3 := s2 + Base64EncodingLine;
    var s4 := s3 + MimeVersionLine;
    var s5 := s4 + DispositionOpen;
    var s6 := s5 + a.filename;
    var s7 := s6 + Quote;
    assert Avoids(s4, p) by {
      OccurrencesConcat(p, s0, a.mime);
      OccurrencesConcat(p, s1, CRLF);
      OccurrencesConcat(p, s2, Base64EncodingLine);
      OccurrencesConcat(p, s3, MimeVersionLine);
    }
    assert Avoids(s6, p) by {
      OccurrencesConcat(p, s4, DispositionOpen);
      OccurrencesConcat(p, s5, a.filename);
    }
    assert Avoids(s7 + BlankLine, p) by {
      OccurrencesConcat(p, s6, Quote);
      OccurrencesConcat(p, s7, BlankLine);
    }
    assert PartHeader(a) == s7 + BlankLine;
  }

  /** N attachment parts hold N delimiters. */
  lemma {:induction false} AttachmentPartsCount(atts: seq<Attachment>, b: string)
    requires IsBoundary(b)
    requires forall k :: 0 <= k < |atts| ==> AttachmentAvoids(atts[k], DashBoundary(b))
    ensures Occurrences(DashBoundary(b), AttachmentParts(atts, b)) == |atts|
    decreases |atts|
  {
    if atts != [] {
      SeamsForeign(b);
      AttachmentPartCount(atts[0], b);
      AttachmentPartsCount(atts[1..], b);
      OccurrencesConcat(DashBoundary(b), AttachmentPart(atts[0], b), AttachmentParts(atts[1..], b));
    }
  }

  /** The multipart preamble, a text part, a delimiter and the closed
      attachment list each open with a character no dash-boundary holds. */
  lemma PiecesOpenForeign(b: string, header: string, text: string, atts: seq<Attachment>)
    requires IsBoundary(b)
    requires header == TextPlainHeader || header == TextHtmlHeader
    ensures StartsForeign(MultipartPreamble(b), DashBoundary(b))
    ensures StartsForeign(BodyPart(header, text), DashBoundary(b))
    ensures StartsForeign(Delimiter(b), DashBoundary(b))
    ensures |atts| > 0 ==> StartsForeign(AttachmentParts(atts, b) + CloseSuffix, DashBoundary(b))
  {
    SeamsForeign(b);
    PreambleOpens(b);
    assert BodyPart(header, text)[0] == 'C';
    assert Delimiter(b)[0] == '\r';
    if atts != [] {
      assert (AttachmentParts(atts, b) + CloseSuffix)[0] == '\r';
    }
  }

  /** The multipart preamble opens with the `C` of its Content-Type. */
  lemma PreambleOpens(b: string)
    ensures |MultipartPreamble(b)| > 0 && MultipartPreamble(b)[0] == 'C'
  {
    var rest := b + Quote + BlankLine + DashBoundary(b) + CRLF;
    assert MultipartOpen[0] == 'C';
    assert MultipartPreamble(b) == MultipartOpen + rest;
  }

  /** The parts followed by the close suffix: still one delimiter per part,
      the last of them now the close-delimiter. */
  lemma ClosedPartsCount(atts: seq<Attachment>, b: string)
    requires IsBoundary(b)
    requires forall k :: 0 <= k < |atts| ==> AttachmentAvoids(atts[k], DashBoundary(b))
    ensures Occurrences(DashBoundary(b), AttachmentParts(atts, b) + CloseSuffix) == |atts|
  {
    AttachmentPartsCount(atts, b);
    AppendDashesKeepsCount(b, AttachmentParts(atts, b));
  }

  /** Header values copied verbatim into the block. */
  predicate HeadersAvoid(headers: map<HeaderName, string>, p: string)
  {
    forall k :: k in headers ==> Avoids(headers[k], p)
  }

  lemma HeaderLineCount(k: HeaderName, value: string, b: string)
    requires IsBoundary(b) && Avoids(value, DashBoundary(b))
    ensures Avoids(HeaderLine(k, value), DashBoundary(b))
  {
    var p := DashBoundary(b);
    var s1 := Name(k) + ": ";
    NamePrefixAvoids(k, b);
    assert Avoids(s1 + value, p) by {
      SeamsForeign(b);
      OccurrencesConcat(p, s1, value);
    }
    CrlfForeign(b);
    AppendAvoiding(p, s1 + value, CRLF);
  }

  /** The `Name: ` prefix of a header line holds no dash-boundary and ends
      with a space. */
  lemma NamePrefixAvoids(k: HeaderName, b: string)
    requires IsBoundary(b)
    ensures Avoids(Name(k) + ": ", DashBoundary(b)) && (Name(k) + ": ")[|Name(k) + ": "| - 1] == ' '
  {
    var p := DashBoundary(b);
    LiteralsAvoid(b);
    SeamsForeign(b);
    HeaderNamesDashFree(k);
    DoubleDashFreeAvoids(p, Name(k));
    OccurrencesConcat(p, Name(k), ": ");
  }

  /** A header block whose values are free of the dash-boundary holds no
      delimiter. */
  lemma {:induction false} HeaderLinesCount(headers: map<HeaderName, string>, order: seq<HeaderName>, b: string)
    requires IsBoundary(b) && HeadersAvoid(headers, DashBoundary(b))
    ensures Avoids(Concat(HeaderLines(headers, order)), DashBoundary(b))
    decreases |order|
  {
    if order != [] {
      var p := DashBoundary(b);
      var k := order[0];
      LiteralsAvoid(b);
      SeamsForeign(b);
      HeaderLinesCount(headers, order[1..], b);
      if k in headers {
        HeaderLineCount(k, headers[k], b);
        var lines := HeaderLines(headers, order);
        assert lines == [HeaderLine(k, headers[k])] + HeaderLines(headers, order[1..]);
        assert lines[1..] == HeaderLines(headers, order[1..]);
        OccurrencesConcat(p, HeaderLine(k, headers[k]), Concat(HeaderLines(headers, order[1..])));
      } else {
        assert HeaderLines(headers, order) == HeaderLines(headers, order[1..]);
      }
    }
  }

  lemma HeaderBlockCount(headers: map<HeaderName, string>, order: HeaderOrder, b: string)
    requires IsBoundary(b) && HeadersAvoid(headers, DashBoundary(b))
    ensures Avoids(HeaderBlock(headers, order), DashBoundary(b))
    ensures HeaderBlock(headers, order) == [] || HeaderBlock(headers, order)[|HeaderBlock(headers, order)| - 1] == '\n'
  {
    HeaderLinesCount(headers, order, b);
    BlockEndsWithNewline(headers, order);
  }

  lemma {:induction false} BlockEndsWithNewline(headers: map<HeaderName, string>, order: seq<HeaderName>)
    ensures var s := Concat(HeaderLines(headers, order)); s == [] || s[|s| - 1] == '\n'
    decreases |order|
  {
    if order != [] {
      BlockEndsWithNewline(headers, order[1..]);
      if order[0] in headers {
        var lines := HeaderLines(headers, order);
        assert lines[1..] == HeaderLines(headers, order[1..]);
      } else {
        assert HeaderLines(headers, order) == HeaderLines(headers, order[1..]);
      }
    }
  }

  /** The delimiter after the body text, the parts and the close suffix: one
      delimiter more than there are attachments. */
  lemma SectionCount(atts: seq<Attachment>, b: string)
    requires IsBoundary(b) && |atts| > 0
    requires forall k :: 0 <= k < |atts| ==> AttachmentAvoids(atts[k], DashBoundary(b))
    ensures Occurrences(DashBoundary(b), Delimiter(b) + AttachmentParts(atts, b) + CloseSuffix) == |atts| + 1
  {
    var parts := AttachmentParts(atts, b);
    SeamsForeign(b);
    DelimiterOnce(b);
    ClosedPartsCount(atts, b);
    assert (parts + CloseSuffix)[0] == '\r';
    OccurrencesConcat(DashBoundary(b), Delimiter(b), parts + CloseSuffix);
    assert Delimiter(b) + parts + CloseSuffix == Delimiter(b) + (parts + CloseSuffix);
  }
}
