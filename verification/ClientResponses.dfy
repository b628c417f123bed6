/**
 From the camera to the HTTP client: the session over any network, the realm's queue,
 the collecting loop and the rewriter, put together.
 */
module ClientResponses {
  import opened Words
  import opened Options
  import opened ByteStrings
  import opened Rewriter
  import opened Http
  import opened Response
  import Network
  import Safety
  import Realms

  /** The payloads the camera was asked to send on a realm. */
  function SentOn(actions: seq<Network.Action>, realm: Words.u32): seq<bytes> {
    Realms.PayloadsOn(realm, Safety.SentBodies(actions, Network.Camera))
  }

  /** What the writer of registration `p` has been given so far. */
  function QueueAt(events: seq<Realms.Event>, p: nat): seq<bytes>
    requires p < |events|
    requires Realms.QueueOf(events, p) < |Realms.AfterAll(Realms.EMPTY_TABLE, events).queues|
  {
    Realms.AfterAll(Realms.EMPTY_TABLE, events).queues[Realms.QueueOf(events, p)]
  }

  lemma ConcatKeepsPrefix(one: seq<bytes>, two: seq<bytes>)
    requires one <= two
    ensures Concat(one) <= Concat(two)
  {
    assert two[..|one|] == one;
    ConcatPrefix(two, |one|);
  }

  /** How the collecting loop fares on what has come through of a response. */
  lemma CollectedPart(chunks: seq<bytes>, response: bytes, stop: nat)
    requires Concat(chunks) <= response && StopsAt(response) == Some(stop)
    ensures ResponseComplete(Concat(chunks)) <==> |Concat(chunks)| >= stop
    ensures var collected := Concat(chunks[..Needed(chunks)]);
      && collected <= Concat(chunks)
      && (!ResponseComplete(Concat(chunks)) ==> collected == Concat(chunks))
      && (NeverEarly(response) ==> collected == Concat(chunks))
  {
    hide ResponseComplete, StopsAt, Needed, Concat;
    var taken, n := Needed(chunks), |Concat(chunks)|;
    assert response[..n] == Concat(chunks);
    CompleteFrom(response, n, stop);
    ConcatPrefix(chunks, taken);
    assert chunks[..|chunks|] == chunks;
    if taken < |chunks| {
      var m := |Concat(chunks[..taken])|;
      assert response[..m] == Concat(chunks[..taken]);
      CompleteFrom(response, m, stop);
    }
  }

  lemma BodyWritten(response: bytes, config: Config, h: nat)
    requires HeaderEnd(response) == Some(h) && NoBareLf(response[..h])
    requires |ResponseRewritten(response, config)| < USIZE
    ensures var written := Written(response, config);
      && ExactlyOneMessage(written) && HeaderEnd(written).Some?
      && written[HeaderEnd(written).value + 4..] ==
           (if ReportsNoProfile(ResponseRewritten(response, config)) then SUCCESS_BODY
            else AuthoritiesReplaced(response[h + 4..], config))
      && (!ReportsNoProfile(ResponseRewritten(response, config)) ==>
            LinesKept(SplitCrlf(response[..h]), SplitCrlf(written[..HeaderEnd(written).value]),
              |AuthoritiesReplaced(response[h + 4..], config)|))
  {
    hide LinesKept, ExactlyOneMessage, HeaderEnd, NoBareLf, ReportsNoProfile, SUCCESS, SUCCESS_BODY,
      AuthoritiesReplaced, SplitCrlf, StrayLength, MessageLength;
    WriterSendsOneMessage(response, config, h);
    Reframing(response, config, h);
    HeaderLinesKept(response, config, h);
    SuccessIsOneMessage();
  }

  /** The client reads one message: the header lines of the response but for its length, and
      the rewritten body of what was collected; or the success message in place of a
      NoProfile fault. */
  ghost predicate OneMessageWith(written: bytes, collected: bytes, config: Config, h: nat)
    requires h + 4 <= |collected|
  {
    && ExactlyOneMessage(written) && HeaderEnd(written).Some?
    && written[HeaderEnd(written).value + 4..] ==
         (if ReportsNoProfile(ResponseRewritten(collected, config)) then SUCCESS_BODY
          else AuthoritiesReplaced(collected[h + 4..], config))
    && (!ReportsNoProfile(ResponseRewritten(collected, config)) ==>
          LinesKept(SplitCrlf(collected[..h]), SplitCrlf(written[..HeaderEnd(written).value]),
            |AuthoritiesReplaced(collected[h + 4..], config)|))
  }

  lemma CollectedWritten(response: bytes, collected: bytes, config: Config, h: nat)
    requires HeaderEnd(response) == Some(h) && NoBareLf(response[..h]) && collected <= response
    requires |ResponseRewritten(collected, config)| < USIZE
    ensures h + 4 <= |collected| ==> OneMessageWith(Written(collected, config), collected, config, h)
    ensures |collected| < h + 4 ==>
      Written(collected, config) == if collected == [] then [] else Normalized(AuthoritiesReplaced(collected, config))
  {
    hide LinesKept, ExactlyOneMessage, NoBareLf, ReportsNoProfile, SUCCESS, SUCCESS_BODY, AuthoritiesReplaced,
      Normalized, BlankAt, Message, NewHeader, SplitCrlf;
    var n := |collected|;
    assert collected == response[..n];
    BlankTake(response, n);
    if h + 4 <= n {
      assert FirstBlank(collected, h);
      HeaderEndIs(collected, h);
      assert collected[..h] == response[..h];
      BodyWritten(collected, config, h);
    } else {
      assert HeaderEnd(collected).None?;
      NormalizedTwice(AuthoritiesReplaced(collected, config));
    }
  }

  /**
   Let the camera answer on a fresh realm with a response whose header has no bare line
   feed, in whatever payloads; a buffer always fits the address space. Whatever the network
   does and however clients come and go: the loop's test says yes exactly when so much of
   the response has come through as its header announces, and all of it is collected by
   then unless the test can say yes early. Should the channel close before, what has come
   through is collected. Once the header is in, the client gets exactly one message with
   what was collected of the body, a truncated body included; without a header it gets
   the bytes with their addresses replaced, in no frame at all.
   */
  lemma ClientGetsOneMessage(
      sys: Network.System, actions: seq<Network.Action>, gapTimeout: nat,
      events: seq<Realms.Event>, p: nat, realm: Words.u32, config: Config, h: nat)
    requires Network.Initial(sys) && Network.Admissible(sys, actions, gapTimeout) && !sys.engine.session.allowGapSkip
    requires Realms.IncomingBodies(events) <= Safety.Bodies(Network.Run(sys, actions, gapTimeout).engine.output)
    requires p < |events| && events[p] == Realms.Register(realm) && Realms.FreshAt(events, p, realm)
    requires var response := Concat(SentOn(actions, realm));
      && HeaderEnd(response) == Some(h) && NoBareLf(response[..h])
      && forall part :: part <= response ==> |ResponseRewritten(part, config)| < USIZE
    ensures Realms.QueueOf(events, p) < |Realms.AfterAll(Realms.EMPTY_TABLE, events).queues|
    ensures var response, queue := Concat(SentOn(actions, realm)), QueueAt(events, p);
      var collected := Concat(queue[..Needed(queue)]);
      && collected <= Concat(queue) <= response && StopsAt(response).Some?
      && (ResponseComplete(Concat(queue)) <==> |Concat(queue)| >= StopsAt(response).value)
      && (!ResponseComplete(Concat(queue)) || NeverEarly(response) ==> collected == Concat(queue))
      && (h + 4 <= |collected| ==> OneMessageWith(Written(collected, config), collected, config, h))
      && (|collected| < h + 4 ==>
            Written(collected, config) ==
              if collected == [] then [] else Normalized(AuthoritiesReplaced(collected, config)))
  {
    hide *;
    Realms.RealmStreamSafety(sys, actions, gapTimeout, events, p, realm);
    QueueIsPrefix(actions, events, p, realm);
    var response, queue := Concat(SentOn(actions, realm)), QueueAt(events, p);
    var collected := Concat(queue[..Needed(queue)]);
    ConcatKeepsPrefix(queue, SentOn(actions, realm));
    HeaderStops(response);
    CollectedPart(queue, response, StopsAt(response).value);
    PrefixOfPrefix(collected, Concat(queue), response);
    CollectedWritten(response, collected, config, h);
  }

  lemma PrefixOfPrefix(a: bytes, b: bytes, c: bytes)
    requires a <= b <= c
    ensures a <= c
  {
  }

  lemma QueueIsPrefix(actions: seq<Network.Action>, events: seq<Realms.Event>, p: nat, realm: Words.u32)
    requires p < |events| && Realms.QueueOf(events, p) < |Realms.AfterAll(Realms.EMPTY_TABLE, events).queues|
    ensures QueueAt(events, p) == Realms.AfterAll(Realms.EMPTY_TABLE, events).queues[Realms.QueueOf(events, p)]
    ensures SentOn(actions, realm) == Realms.PayloadsOn(realm, Safety.SentBodies(actions, Network.Camera))
  {
  }

  lemma HeaderStops(s: bytes)
    requires HeaderEnd(s).Some?
    ensures StopsAt(s).Some?
  {
  }

  // ---- a response without a length ----

  lemma SomethingRewritten(s: bytes, config: Config)
    requires s != []
    ensures AuthoritiesReplaced(s, config) != []
  {
    hide Cut, WellCut, Replaced, Joined, LocalAuthority;
    var http, rtsp := LocalAuthority(config.host, config.onvifPort), LocalAuthority(config.host, config.rtspPort);
    CutIsWellCut(s, HTTP_SCHEME);
    JoinedStart(Cut(s, HTTP_SCHEME), HTTP_SCHEME, http);
    var between := Rewritten(s, HTTP_SCHEME, http);
    CutIsWellCut(between, RTSP_SCHEME);
    JoinedStart(Cut(between, RTSP_SCHEME), RTSP_SCHEME, rtsp);
  }

  /** What the client is sent for a response with a body and no readable length depends on
      how the camera cut it: the body is lost when the first payload ends with the header. */
  lemma CuttingDecides(s: bytes, config: Config, h: nat)
    requires HeaderEnd(s) == Some(h) && ContentLength(Lines(s[..h])).None? && |s| > h + 4
    requires |AuthoritiesReplaced(s[h + 4..], config)| < USIZE
    ensures var two, one := [s[..h + 4], s[h + 4..]], [s];
      var lost, kept := Concat(two[..Needed(two)]), Concat(one[..Needed(one)]);
      && Concat(two) == Concat(one) == s && lost == s[..h + 4] && kept == s
      && ResponseRewritten(lost, config) != ResponseRewritten(kept, config)
  {
    hide Concat, HeaderEnd, Lines, ContentLength, AuthoritiesReplaced, ResponseRewritten, ExactlyOneMessage,
      MessageLength, StrayLength, SplitCrlf, BlankAt;
    NothingToReplace(config);
    BodyWithoutLength(s, h);
    var head := s[..h + 4];
    BlankTake(s, h + 4);
    assert FirstBlank(head, h);
    HeaderEndIs(head, h);
    assert head[h + 4..] == [];
    Reframing(head, config, h);
    Reframing(s, config, h);
    SomethingRewritten(s[h + 4..], config);
  }

  /** `A`, a blank line, `B`: a header without a length, and a body. */
  const LENGTHLESS: bytes := [0x41] + BLANK_LINE + [0x42]

  lemma LengthlessLosesBody()
    ensures !NeverEarly(LENGTHLESS)
    ensures var chunks := [LENGTHLESS[..5], LENGTHLESS[5..]];
      Concat(chunks) == LENGTHLESS && Concat(chunks[..Needed(chunks)]) == LENGTHLESS[..5]
  {
    hide Concat, Needed, NeverEarly;
    assert FirstBlank(LENGTHLESS, 1);
    HeaderEndIs(LENGTHLESS, 1);
    assert LENGTHLESS[..1] == [0x41];
    LetterLine();
    BodyWithoutLength(LENGTHLESS, 1);
  }

  lemma LetterLine()
    ensures ContentLength(Lines([0x41])) == None
  {
    PlainLine([0x41]);
    var one := [[0x41]];
    assert one[1..] == [] && IndexOf([0x41], 0x3A) == 1;
  }
}
