/** What the blocking driver hands to process_request, and why it does not depend on how the
    client's bytes were cut into reads. */
module ConnectionSpec {
  import opened Http
  import opened ParserSpec

  datatype Errno = EINTR | EAGAIN | OtherErrno

  /** One read(2): some bytes, or none at end of stream, or -1 with errno (a timeout of the
      blocking socket is EAGAIN). */
  datatype ReadResult = Bytes(data: string) | ReadError(errno: Errno)

  datatype Ending =
    | PeerGone                                   // end of stream, read error or timeout: nothing is sent
    | Replied(error: ParseError, why: Message)   // one error reply, then close
    | CloseAsked                                 // the last request asked for it

  datatype Outcome = Outcome(requests: seq<Request>, ending: Ending)

  /** The requests in a fully scanned parser, each leftover scanned in turn, up to the first
      request that asks to close. */
  datatype Session = Session(requests: seq<Request>, last: Parser, closed: bool)

  function Serve(q: Parser): Session
    decreases |q.buffer| + (if q.state.Done? then 1 else 0)
  {
    if !q.state.Done? then Session([], q, false)
    else if WantsClose(q.request) then Session([q.request], q, true)
    else
      ScanDoneShrinks(q.buffer);
      var s := Serve(Scan(Fresh(q.buffer)));
      s.(requests := [q.request] + s.requests)
  }

  lemma ScanDoneShrinks(w: string)
    ensures Scan(Fresh(w)).state.Done? ==> |Scan(Fresh(w)).buffer| < |w|
  {}

  function EndingOf(s: Session): Ending {
    if s.closed then CloseAsked
    else if s.last.state.Error? then Replied(s.last.error, s.last.message)
    else PeerGone
  }

  function OutcomeOf(s: Session): Outcome { Outcome(s.requests, EndingOf(s)) }

  /** The whole stream parsed at once, recursively, with no limit on lines: the reference. */
  function OneShot(stream: string): Outcome {
    OutcomeOf(Serve(Scan(Fresh(stream))))
  }

  /** The bytes of the unfinished line, if the stream ends inside a line of some request. */
  function PendingLine(stream: string): nat {
    PendingOf(Serve(Scan(Fresh(stream))))
  }

  function PendingOf(s: Session): nat {
    if !s.closed && s.last.AtLine() then |s.last.buffer| else 0
  }

  /** The bytes a sequence of reads delivers before the connection ends. */
  function Stream(input: seq<ReadResult>): string {
    if Ends(input) then "" else Delivered(input[0]) + Stream(input[1..])
  }

  /** End of stream, an error other than EINTR, or no further read at all. */
  predicate Ends(input: seq<ReadResult>) {
    input == [] || input[0] == Bytes("") || (input[0].ReadError? && !input[0].errno.EINTR?)
  }

  function Delivered(r: ReadResult): string {
    if r.Bytes? then r.data else ""
  }

  /** handle_connection from a parser state on; reads that are not listed time out. */
  function Drive(p: Parser, input: seq<ReadResult>): Outcome
    decreases |input|, |p.buffer| + (if p.state.Done? then 1 else 0)
  {
    if p.state.Done? then
      if WantsClose(p.request) then Outcome([p.request], CloseAsked)
      else
        ScanDoneShrinks(p.buffer);
        var o := Drive(Next(p), input);
        o.(requests := [p.request] + o.requests)
    else if p.state.Error? then Outcome([], Replied(p.error, p.message))
    else if input == [] then Outcome([], PeerGone)
    else
      match input[0]
      case Bytes(data) => if data == "" then Outcome([], PeerGone) else Drive(Feed(p, data), input[1..])
      case ReadError(e) => if e.EINTR? then Drive(p, input[1..]) else Outcome([], PeerGone)
  }

  // ----- chunking is unobservable -----

  /** What is served after more bytes arrive. */
  function After(q: Parser, more: string): Session {
    Serve(Scan(q.Plus(more)))
  }

  /** No read boundary falls more than 8192 bytes into an unfinished line. */
  ghost predicate LinesFit(q: Parser, input: seq<ReadResult>) {
    forall k | 0 <= k <= |input| :: PendingOf(After(q, Stream(input[..k]))) <= MAX_LINE
  }

  lemma AfterDone(q: Parser, more: string)
    requires q.state.Done? && !WantsClose(q.request)
    ensures After(q, more).requests == [q.request] + After(Scan(Fresh(q.buffer)), more).requests
    ensures After(q, more).last == After(Scan(Fresh(q.buffer)), more).last
    ensures After(q, more).closed == After(Scan(Fresh(q.buffer)), more).closed
  {
    ScanSplit(Fresh(q.buffer), more);
    assert Fresh(q.buffer).Plus(more) == Fresh(q.buffer + more);
  }

  lemma AfterBytes(q: Parser, data: string, more: string)
    ensures After(q, data + more) == After(Scan(q.Plus(data)), more)
  {
    hide Serve, Scan;
    ScanSplit(q.Plus(data), more);
    assert q.Plus(data).Plus(more) == q.Plus(data + more) by {
      assert (q.buffer + data) + more == q.buffer + (data + more);
    }
  }

  lemma AfterNothing(q: Parser)
    requires Scan(q) == q
    ensures After(q, "") == Serve(q)
  {
    assert q.Plus("") == q;
  }

  lemma {:induction false} ServeNeverTooLong(q: Parser)
    requires !TooLong(q)
    ensures !TooLong(Serve(q).last)
    decreases |q.buffer| + (if q.state.Done? then 1 else 0)
  {
    if q.state.Done? && !WantsClose(q.request) {
      ScanDoneShrinks(q.buffer);
      ScanNeverTooLong(Fresh(q.buffer));
      ServeNeverTooLong(Scan(Fresh(q.buffer)));
    }
  }

  lemma StreamStep(input: seq<ReadResult>, k: nat)
    requires 0 < k <= |input|
    ensures Stream(input[..k]) ==
            if Ends(input) then "" else Delivered(input[0]) + Stream(input[1..][..k - 1])
  {
    assert input[..k][1..] == input[1..][..k - 1];
  }

  function OnRead(q: Parser, r: ReadResult): Parser {
    if r.Bytes? then Scan(q.Plus(r.data)) else q
  }

  /** LinesFit looks at the present line and then at the rest of the reads. */
  lemma LinesFitStep(q: Parser, next: Parser, input: seq<ReadResult>)
    requires Scan(q) == q && !Ends(input) && next == OnRead(q, input[0])
    ensures LinesFit(q, input) <==> PendingOf(Serve(q)) <= MAX_LINE && LinesFit(next, input[1..])
    ensures After(q, Stream(input)) == After(next, Stream(input[1..]))
  {
    hide Serve, Scan, Stream;
    var rest := input[1..];
    forall k | 0 < k <= |input|
      ensures After(q, Stream(input[..k])) == After(next, Stream(rest[..k - 1]))
    {
      StreamStep(input, k);
      if input[0].Bytes? { AfterBytes(q, input[0].data, Stream(rest[..k - 1])); }
      else { assert "" + Stream(rest[..k - 1]) == Stream(rest[..k - 1]); }
    }
    assert input[..0] == [] && Stream([]) == "" by { StreamEmpty(); }
    AfterNothing(q);
    assert input[..|input|] == input && rest[..|rest|] == rest;
    if LinesFit(next, rest) && PendingOf(Serve(q)) <= MAX_LINE {
      forall k | 0 <= k <= |input| ensures PendingOf(After(q, Stream(input[..k]))) <= MAX_LINE {
        if k > 0 { assert PendingOf(After(next, Stream(rest[..k - 1]))) <= MAX_LINE; }
      }
    }
    if LinesFit(q, input) {
      assert PendingOf(After(q, Stream(input[..0]))) <= MAX_LINE;
      forall k | 0 <= k <= |rest| ensures PendingOf(After(next, Stream(rest[..k]))) <= MAX_LINE {
        assert PendingOf(After(q, Stream(input[..k + 1]))) <= MAX_LINE;
      }
    }
  }

  lemma StreamEmpty()
    ensures Stream([]) == ""
  {}

  /** When nothing more is delivered, LinesFit only asks about the present line. */
  lemma LinesFitEnd(q: Parser, input: seq<ReadResult>)
    requires Scan(q) == q
    requires Ends(input)
    ensures LinesFit(q, input) <==> PendingOf(Serve(q)) <= MAX_LINE
    ensures After(q, Stream(input)) == Serve(q)
  {
    hide Serve, Scan;
    AfterNothing(q);
    assert input[..0] == [];
    forall k | 0 <= k <= |input| ensures Stream(input[..k]) == "" {}
    assert input[..|input|] == input;
    if LinesFit(q, input) { assert PendingOf(After(q, Stream(input[..0]))) <= MAX_LINE; }
  }

  /** A parser that has stopped for good serves nothing more, whatever arrives. */
  lemma LinesFitStopped(q: Parser, input: seq<ReadResult>)
    requires q.state.Error? || (q.state.Done? && WantsClose(q.request))
    ensures LinesFit(q, input)
    ensures OutcomeOf(After(q, Stream(input))) == OutcomeOf(Serve(q))
  {}

  lemma {:induction false} DriveIsServe(q: Parser, input: seq<ReadResult>)
    requires Scan(q) == q && !TooLong(q)
    ensures Drive(Cap(q), input) == OutcomeOf(After(q, Stream(input))) <==> LinesFit(q, input)
    decreases |input|, |q.buffer| + (if q.state.Done? then 1 else 0), 1
  {
    if q.state.Error? || (q.state.Done? && WantsClose(q.request)) {
      LinesFitStopped(q, input);
    } else if q.state.Done? {
      DriveNext(q, input);
    } else if OverLimit(q) {
      var w := Stream(input);
      ScanNeverTooLong(q.Plus(w));
      ServeNeverTooLong(Scan(q.Plus(w)));
      AfterNothing(q);
      assert input[..0] == [];
      assert PendingOf(After(q, Stream(input[..0]))) > MAX_LINE;
    } else if Ends(input) {
      LinesFitEnd(q, input);
    } else {
      var next := OnRead(q, input[0]);
      LinesFitStep(q, next, input);
      if input[0].Bytes? {
        ScanIdempotent(q.Plus(input[0].data));
        ScanNeverTooLong(q.Plus(input[0].data));
      }
      DriveIsServe(next, input[1..]);
    }
  }

  lemma {:induction false} DriveNext(q: Parser, input: seq<ReadResult>)
    requires Scan(q) == q && !TooLong(q)
    requires q.state.Done? && !WantsClose(q.request)
    ensures Drive(Cap(q), input) == OutcomeOf(After(q, Stream(input))) <==> LinesFit(q, input)
    decreases |input|, |q.buffer| + 1, 0
  {
    var next := Scan(Fresh(q.buffer));
    ScanDoneShrinks(q.buffer);
    ScanIdempotent(Fresh(q.buffer));
    ScanNeverTooLong(Fresh(q.buffer));
    DriveIsServe(next, input);
    assert Drive(Cap(q), input) == Prepend(q.request, Drive(Cap(next), input));
    hide *;
    AfterDoneAll(q, input);
  }

  function Prepend(r: Request, o: Outcome): Outcome {
    o.(requests := [r] + o.requests)
  }

  lemma AfterDoneAll(q: Parser, input: seq<ReadResult>)
    requires q.state.Done? && !WantsClose(q.request)
    ensures var next := Scan(Fresh(q.buffer));
            && (LinesFit(q, input) <==> LinesFit(next, input))
            && OutcomeOf(After(q, Stream(input))) == Prepend(q.request, OutcomeOf(After(next, Stream(input))))
            && forall o: Outcome ::
                 Prepend(q.request, o) == OutcomeOf(After(q, Stream(input))) <==> o == OutcomeOf(After(next, Stream(input)))
  {
    hide Scan, Serve, Stream, After;
    var next := Scan(Fresh(q.buffer));
    AfterDone(q, Stream(input));
    forall k | 0 <= k <= |input|
      ensures PendingOf(After(q, Stream(input[..k]))) == PendingOf(After(next, Stream(input[..k])))
    {
      AfterDone(q, Stream(input[..k]));
    }
    forall o: Outcome
      ensures Prepend(q.request, o) == OutcomeOf(After(q, Stream(input))) <==> o == OutcomeOf(After(next, Stream(input)))
    {
      assert ([q.request] + o.requests)[1..] == o.requests;
    }
  }

  /** The driver hands on the requests of the one-shot parse and ends as it does, for every
      stream and every way of cutting it into reads, exactly when no read boundary falls
      more than 8192 bytes into an unfinished line. */
  lemma ChunkingUnobservable(input: seq<ReadResult>)
    ensures Drive(Fresh(""), input) == OneShot(Stream(input))
       <==> forall k | 0 <= k <= |input| :: PendingLine(Stream(input[..k])) <= MAX_LINE
  {
    FreshIsScanned();
    DriveIsServe(Fresh(""), input);
    hide Drive, Scan, Serve, Stream;
    FreshPlus(Stream(input));
    forall k | 0 <= k <= |input|
      ensures PendingLine(Stream(input[..k])) == PendingOf(After(Fresh(""), Stream(input[..k])))
    {
      FreshPlus(Stream(input[..k]));
    }
  }

  lemma FreshIsScanned()
    ensures Scan(Fresh("")) == Fresh("") && Cap(Fresh("")) == Fresh("") && !TooLong(Fresh(""))
  {}

  lemma FreshPlus(w: string)
    ensures Fresh("").Plus(w) == Fresh(w)
  {
    assert "" + w == w;
  }
}
