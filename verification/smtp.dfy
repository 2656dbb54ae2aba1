/** The part of an SMTP client session (RFC 5321 section 3.3) that the
    senders drive: the commands of a mail transaction and the server's
    verdict on each. The server is an oracle that may answer differently
    depending on everything sent before. */
module Smtp {
  import opened Results

  /** A command as the client library issues it. `Payload` stands for the
      message bytes written after DATA together with the closing `.` line;
      its reply is the one the close returns. */
  datatype Command = Mail(from: string) | Rcpt(to: string) | Data | Payload(body: string) | Quit

  datatype Reply = Accepted | Rejected(error: string)

  /** The server's reply to a command, given the commands sent before it on
      the same connection. */
  type Server = (seq<Command>, Command) -> Reply

  /** One RCPT per address, in list order. */
  function Rcpts(addresses: seq<string>): (r: seq<Command>)
    ensures |r| == |addresses|
    decreases |addresses|
  {
    if addresses == [] then [] else [Rcpt(addresses[0])] + Rcpts(addresses[1..])
  }

  /** The `k`-th command is the RCPT of the `k`-th address. */
  lemma {:induction false} RcptsAt(addresses: seq<string>)
    ensures forall k :: 0 <= k < |addresses| ==> Rcpts(addresses)[k] == Rcpt(addresses[k])
    decreases |addresses|
  {
    if addresses != [] {
      RcptsAt(addresses[1..]);
    }
  }

  lemma {:induction false} RcptsAppend(a: seq<string>, b: seq<string>)
    ensures Rcpts(a + b) == Rcpts(a) + Rcpts(b)
  {
    var r := Rcpts(a + b);
    RcptsAt(a + b);
    RcptsAt(a);
    RcptsAt(b);
    assert |r| == |Rcpts(a) + Rcpts(b)|;
    forall k | 0 <= k < |r| ensures r[k] == (Rcpts(a) + Rcpts(b))[k] {
      if k < |a| {
        assert (a + b)[k] == a[k];
      } else {
        assert (a + b)[k] == b[k - |a|];
      }
    }
  }

  /** The server's reply to the `k`-th command of `cmds`, sent after
      `history` and the commands before it. */
  function ReplyTo(server: Server, history: seq<Command>, cmds: seq<Command>, k: int): Reply
    requires 0 <= k < |cmds|
  {
    server(history + cmds[..k], cmds[k])
  }

  /** The server accepted every command of `cmds`, sent after `history`. */
  predicate AllAccepted(server: Server, history: seq<Command>, cmds: seq<Command>)
  {
    forall k :: 0 <= k < |cmds| ==> ReplyTo(server, history, cmds, k).Accepted?
  }

  lemma AllAcceptedAppend(server: Server, history: seq<Command>, a: seq<Command>, b: seq<Command>)
    requires AllAccepted(server, history, a) && AllAccepted(server, history + a, b)
    ensures AllAccepted(server, history, a + b)
  {
    forall k | 0 <= k < |a + b| ensures ReplyTo(server, history, a + b, k).Accepted? {
      if k < |a| {
        assert (a + b)[..k] == a[..k];
        assert (a + b)[k] == a[k];
        assert ReplyTo(server, history, a, k).Accepted?;
      } else {
        assert (a + b)[..k] == a + b[..k - |a|];
        assert history + (a + b)[..k] == (history + a) + b[..k - |a|];
        assert (a + b)[k] == b[k - |a|];
        assert ReplyTo(server, history + a, b, k - |a|).Accepted?;
      }
    }
  }

  /** The last command of a non-empty exchange was rejected with `error`,
      every one before it accepted. */
  predicate FailedLast(server: Server, history: seq<Command>, sent: seq<Command>, error: string)
  {
    && |sent| > 0
    && AllAccepted(server, history, sent[..|sent| - 1])
    && server(history + sent[..|sent| - 1], sent[|sent| - 1]) == Rejected(error)
  }

  /** A sequence is accepted exactly when its first command is and the rest
      is, sent after it. */
  lemma AllAcceptedCons(server: Server, history: seq<Command>, c: Command, rest: seq<Command>)
    ensures AllAccepted(server, history, [c] + rest)
        <==> server(history, c).Accepted? && AllAccepted(server, history + [c], rest)
  {
    var cmds := [c] + rest;
    assert cmds[..0] == [] && history + [] == history;
    assert ReplyTo(server, history, cmds, 0) == server(history, c);
    forall k | 0 <= k < |rest|
      ensures ReplyTo(server, history, cmds, k + 1) == ReplyTo(server, history + [c], rest, k)
    {
      assert cmds[..k + 1] == [c] + rest[..k];
      assert history + cmds[..k + 1] == (history + [c]) + rest[..k];
    }
    if server(history, c).Accepted? && AllAccepted(server, history + [c], rest) {
      forall k | 0 <= k < |cmds| ensures ReplyTo(server, history, cmds, k).Accepted? {
        if k > 0 {
          assert ReplyTo(server, history + [c], rest, k - 1).Accepted?;
        }
      }
    }
    if AllAccepted(server, history, cmds) {
      forall k | 0 <= k < |rest| ensures ReplyTo(server, history + [c], rest, k).Accepted? {
        assert ReplyTo(server, history, cmds, k + 1).Accepted?;
      }
    }
  }

  /** A failure after an accepted command is a failure of the longer
      exchange. */
  lemma FailedLastCons(server: Server, history: seq<Command>, c: Command, sent: seq<Command>, error: string)
    requires server(history, c).Accepted? && FailedLast(server, history + [c], sent, error)
    ensures FailedLast(server, history, [c] + sent, error)
  {
    var full := [c] + sent;
    assert full[..|full| - 1] == [c] + sent[..|sent| - 1];
    AllAcceptedCons(server, history, c, sent[..|sent| - 1]);
    assert history + full[..|full| - 1] == (history + [c]) + sent[..|sent| - 1];
  }

  /** A failure after an accepted prefix is a failure of the whole. */
  lemma FailedLastAfter(server: Server, history: seq<Command>, prefix: seq<Command>, sent: seq<Command>, error: string)
    requires AllAccepted(server, history, prefix) && FailedLast(server, history + prefix, sent, error)
    ensures FailedLast(server, history, prefix + sent, error)
  {
    var full := prefix + sent;
    assert full[..|full| - 1] == prefix + sent[..|sent| - 1];
    AllAcceptedAppend(server, history, prefix, sent[..|sent| - 1]);
    assert history + full[..|full| - 1] == (history + prefix) + sent[..|sent| - 1];
  }

  /** A command rejected straight away ends the exchange. */
  lemma FailedFirst(server: Server, history: seq<Command>, cmds: seq<Command>, error: string)
    requires |cmds| > 0 && server(history, cmds[0]) == Rejected(error)
    ensures [cmds[0]] <= cmds
    ensures FailedLast(server, history, [cmds[0]], error)
    ensures !AllAccepted(server, history, cmds)
  {
    assert [cmds[0]][..0] == [] && cmds[..0] == [] && history + [] == history;
    assert ReplyTo(server, history, cmds, 0) == server(history, cmds[0]);
  }

  /** Issues `cmds` in order, stopping at the first rejection, as the
      `if err != nil { return err }` chains do. Returns the commands actually
      sent and the error, if any. */
  function Exchange(server: Server, history: seq<Command>, cmds: seq<Command>): (r: (seq<Command>, Option<string>))
    decreases |cmds|
  {
    if cmds == [] then ([], None)
    else match server(history, cmds[0])
      case Rejected(e) => ([cmds[0]], Some(e))
      case Accepted =>
        var rest := Exchange(server, history + [cmds[0]], cmds[1..]);
        ([cmds[0]] + rest.0, rest.1)
  }

  /** What an exchange sends is a prefix of the commands; it reports no
      error exactly when it sent them all and every one was accepted, and
      otherwise the last command sent was refused with that error. */
  lemma {:induction false} ExchangeSpec(server: Server, history: seq<Command>, cmds: seq<Command>)
    ensures var r := Exchange(server, history, cmds);
      && r.0 <= cmds
      && (r.1.None? <==> (r.0 == cmds && AllAccepted(server, history, cmds)))
      && (r.1.Some? ==> FailedLast(server, history, r.0, r.1.value))
    decreases |cmds|
  {
    if cmds != [] {
      match server(history, cmds[0])
      case Rejected(e) =>
        FailedFirst(server, history, cmds, e);
      case Accepted =>
        var rest := Exchange(server, history + [cmds[0]], cmds[1..]);
        ExchangeSpec(server, history + [cmds[0]], cmds[1..]);
        assert cmds == [cmds[0]] + cmds[1..];
        AllAcceptedCons(server, history, cmds[0], cmds[1..]);
        if rest.1.Some? {
          FailedLastCons(server, history, cmds[0], rest.0, rest.1.value);
        }
    }
  }
}
