/** The server: the bytes of each client are collected until they make up a request, which is then
    answered. */
module HttpServer {
  import opened Characters
  import opened Http
  import HttpResponse
  import HttpStream
  import opened Options
  import opened StringOrder

  type ClientId = int

  /** What the handler of a route does with a request. */
  datatype Handled = Body(text: string) | Threw(what: string)

  type Handler = Request -> Handled

  datatype Response = Response(status: Status, text: string)

  datatype Status = Ok | BadRequest | NotFound | InternalServerError

  type Routes = map<(Method, string), Handler>

  // ----- when a buffer is answered, and how -----

  /** Complete headers, and either no request in them or the whole announced body. */
  predicate Ready(buffer: string) {
    HeaderEnd(buffer).Some?
    && (Deserialize(buffer).None?
        || |buffer| - (HeaderEnd(buffer).value + 4) >= ContentLength(Deserialize(buffer).value))
  }

  function Answer(routes: Routes, buffer: string): Response {
    match Deserialize(buffer)
    case None => Response(BadRequest, "Bad Request")
    case Some(req) => Reply(routes, req)
  }

  function Reply(routes: Routes, req: Request): Response {
    if (req.verb, req.path) in routes then Handle(routes[(req.verb, req.path)], req) else Unbound(req)
  }

  function Handle(handler: Handler, req: Request): Response {
    match handler(req)
    case Body(text) => Response(Ok, text)
    case Threw(what) => Response(InternalServerError, "Internal Server Error: " + what)
  }

  function Unbound(req: Request): Response {
    Response(NotFound, "Not Found: " + req.path)
  }

  // ----- which handler sees a request -----

  datatype Binding = Binding(verb: Method, path: string, handler: Handler)

  predicate Matches(b: Binding, req: Request) {
    b.verb == req.verb && b.path == req.path
  }

  /** The routes after these bindings, the oldest first. */
  function Bound(bindings: seq<Binding>): Routes {
    if bindings == [] then map[]
    else
      var last := bindings[|bindings| - 1];
      Bound(bindings[..|bindings| - 1])[(last.verb, last.path) := last.handler]
  }

  /** The newest binding of the method and the path of a request decides. */
  lemma {:induction false} NewestDecides(bindings: seq<Binding>, i: nat, req: Request)
    requires i < |bindings| && Matches(bindings[i], req)
    requires forall k :: i < k < |bindings| ==> !Matches(bindings[k], req)
    ensures Reply(Bound(bindings), req) == Handle(bindings[i].handler, req)
  {
    hide Handle, Unbound;
    if i < |bindings| - 1 {
      NewestDecides(bindings[..|bindings| - 1], i, req);
      assert !Matches(bindings[|bindings| - 1], req);
    }
  }

  /** Without one the request is not found. */
  lemma {:induction false} NoneDecides(bindings: seq<Binding>, req: Request)
    requires forall k :: 0 <= k < |bindings| ==> !Matches(bindings[k], req)
    ensures Reply(Bound(bindings), req) == Unbound(req)
  {
    hide Handle, Unbound;
    if bindings != [] {
      NoneDecides(bindings[..|bindings| - 1], req);
      assert !Matches(bindings[|bindings| - 1], req);
    }
  }

  /** How many bytes of a text with complete headers make up its first message. */
  function MessageLength(s: string): (n: nat)
    requires HeaderEnd(s).Some?
    ensures n > 0
  {
    var head := HeaderEnd(s).value + 4;
    match Deserialize(s)
    case None => head
    case Some(req) => head + ContentLength(req)
  }

  /** The text is exactly one message. */
  predicate Complete(s: string) {
    HeaderEnd(s).Some? && |s| == MessageLength(s)
  }

  lemma ReadyByLength(s: string)
    ensures Ready(s) <==> HeaderEnd(s).Some? && |s| >= MessageLength(s)
  {}

  /** All texts with the same beginning, up to the end of its headers, have the same message length. */
  lemma MessageLengthPrefix(p: string, s: string)
    requires p <= s && HeaderEnd(p).Some?
    ensures HeaderEnd(s) == HeaderEnd(p) && MessageLength(s) == MessageLength(p)
  {
    hide HeaderEnd, Deserialize, ContentLength;
    HeaderEndPrefix(p, s);
    HeadDecides(p, s[|p|..]);
    assert p + s[|p|..] == s;
    if Deserialize(p).Some? { SameHeadersSameLength(Deserialize(p).value, Deserialize(s).value); }
  }

  /** A part of a text is ready exactly when it reaches the length of the first message. */
  lemma ReadyExactly(p: string, s: string)
    requires p <= s
    ensures Ready(p) <==> HeaderEnd(s).Some? && |p| >= MessageLength(s)
  {
    hide HeaderEnd, MessageLength, Ready;
    HeaderEndPrefix(p, s);
    ReadyByLength(p);
    if HeaderEnd(p).Some? { MessageLengthPrefix(p, s); }
    if HeaderEnd(s).Some? { HeadFits(s); }
  }

  lemma HeadFits(s: string)
    requires HeaderEnd(s).Some?
    ensures MessageLength(s) >= HeaderEnd(s).value + 4
  {}

  // ----- one client -----

  function Feed(routes: Routes, buffer: string, chunk: string): (string, Option<Response>) {
    if chunk == [] || !Ready(buffer + chunk) then (buffer + chunk, None)
    else ([], Some(Answer(routes, buffer + chunk)))
  }

  /** The reactions to the chunks of one client, and the bytes left in its buffer. */
  function Run(routes: Routes, buffer: string, chunks: seq<string>): (r: (seq<Option<Response>>, string))
    ensures |r.0| == |chunks|
    decreases |chunks|
  {
    if chunks == [] then ([], buffer)
    else
      var (next, reaction) := Feed(routes, buffer, chunks[0]);
      var (reactions, left) := Run(routes, next, chunks[1..]);
      ([reaction] + reactions, left)
  }

  function Joined(chunks: seq<string>): string {
    if chunks == [] then [] else chunks[0] + Joined(chunks[1..])
  }

  predicate NonEmpty(chunks: seq<string>) {
    forall i :: 0 <= i < |chunks| ==> chunks[i] != []
  }

  /** No reaction but to the last chunk. */
  function LastOnly(n: nat, last: Response): (r: seq<Option<Response>>)
    requires n > 0
    ensures |r| == n && r[n - 1] == Some(last) && forall i :: 0 <= i < n - 1 ==> r[i] == None
  {
    seq(n - 1, _ => None) + [Some(last)]
  }

  /** The chunks with more text at the end of the last one. */
  function Longer(chunks: seq<string>, more: string): (r: seq<string>)
    requires chunks != []
    ensures |r| == |chunks|
  {
    chunks[..|chunks| - 1] + [chunks[|chunks| - 1] + more]
  }

  /** One complete message in any pieces gets one response, to its last piece.  What follows in that
      piece is never answered: it is handled as part of the message and dropped with the buffer. */
  lemma {:induction false} PipelinedLost(routes: Routes, buffer: string, chunks: seq<string>, more: string)
    requires chunks != [] && NonEmpty(chunks) && Complete(buffer + Joined(chunks))
    ensures Run(routes, buffer, Longer(chunks, more))
            == (LastOnly(|chunks|, Answer(routes, buffer + Joined(chunks) + more)), [])
    decreases |chunks|
  {
    hide Ready, Complete, Answer;
    var whole := buffer + Joined(chunks);
    var (next, pieces) := (buffer + chunks[0], Longer(chunks, more));
    assert whole == next + Joined(chunks[1..]);
    if |chunks| == 1 {
      assert chunks[1..] == [] && next == whole && buffer + pieces[0] == whole + more;
      CompleteReady(whole, whole);
      ReadyOn(whole, whole + more);
      RunNone(routes, []);
      assert pieces[1..] == [];
      var reaction: Option<Response> := Some(Answer(routes, whole + more));
      assert LastOnly(1, Answer(routes, whole + more)) == [reaction] == [reaction] + [];
    } else {
      JoinedLonger(chunks[1..]);
      CompleteReady(next, whole);
      assert chunks[0] != [] && pieces[0] == chunks[0] && pieces[1..] == Longer(chunks[1..], more);
      PipelinedLost(routes, next, chunks[1..], more);
      assert LastOnly(|chunks|, Answer(routes, whole + more)) == [None] + LastOnly(|chunks| - 1, Answer(routes, whole + more));
    }
  }

  lemma RunComplete(routes: Routes, buffer: string, chunks: seq<string>)
    requires chunks != [] && NonEmpty(chunks) && Complete(buffer + Joined(chunks))
    ensures Run(routes, buffer, chunks) == (LastOnly(|chunks|, Answer(routes, buffer + Joined(chunks))), [])
  {
    hide Ready, Complete, Answer, Run, Joined;
    PipelinedLost(routes, buffer, chunks, []);
    assert chunks[|chunks| - 1] + [] == chunks[|chunks| - 1];
    assert Longer(chunks, []) == chunks;
    assert buffer + Joined(chunks) + [] == buffer + Joined(chunks);
  }

  /** What makes a text ready keeps a longer one ready. */
  lemma ReadyOn(p: string, s: string)
    requires p <= s && Ready(p)
    ensures Ready(s)
  {
    hide Ready, HeaderEnd, MessageLength;
    ReadyExactly(p, s);
    ReadyExactly(s, s);
  }

  lemma CompleteReady(p: string, s: string)
    requires p <= s && Complete(s)
    ensures Ready(p) <==> p == s
  {
    hide Ready, HeaderEnd, MessageLength;
    ReadyExactly(p, s);
    if |p| >= |s| { assert p == s; }
  }

  lemma RunNone(routes: Routes, buffer: string)
    ensures Run(routes, buffer, []) == ([], buffer)
  {}

  lemma JoinedLonger(chunks: seq<string>)
    requires chunks != [] && NonEmpty(chunks)
    ensures |Joined(chunks)| > 0
  {
    assert chunks[0] != [];
  }

  lemma {:induction false} RunConcat(routes: Routes, buffer: string, a: seq<string>, b: seq<string>)
    ensures var (first, middle) := Run(routes, buffer, a); var (second, left) := Run(routes, middle, b);
            Run(routes, buffer, a + b) == (first + second, left)
    decreases |a|
  {
    hide Feed;
    if a == [] {
      assert a + b == b;
      RunNone(routes, buffer);
      assert [] + Run(routes, buffer, b).0 == Run(routes, buffer, b).0;
    } else {
      assert (a + b)[0] == a[0] && (a + b)[1..] == a[1..] + b;
      var (next, reaction) := Feed(routes, buffer, a[0]);
      RunConcat(routes, next, a[1..], b);
      var (first, middle) := Run(routes, next, a[1..]);
      var second := Run(routes, middle, b).0;
      assert [reaction] + first + second == [reaction] + (first + second);
    }
  }

  /** The reactions to a text that arrives in any pieces: one answer, to the last piece. */
  ghost predicate AnsweredOnce(routes: Routes, s: string) {
    forall chunks :: chunks != [] && NonEmpty(chunks) && Joined(chunks) == s ==>
      Run(routes, [], chunks) == (LastOnly(|chunks|, Answer(routes, s)), [])
  }

  lemma JoinedPair(a: string, b: string)
    ensures Joined([a]) == a && Joined([a, b]) == a + b
  {
    assert [a, b][1..] == [b] && [a][1..] == [] && [b][1..] == [];
    assert a + [] == a && b + [] == b;
    assert Joined([b]) == b + Joined([]);
  }

  /** A text is answered once and alike however it is cut exactly when it is one complete message. */
  lemma AnsweredOnceExactly(routes: Routes, s: string)
    requires s != []
    ensures AnsweredOnce(routes, s) <==> Complete(s)
  {
    hide Run, Complete, Answer, Joined, AnsweredOnce;
    if Complete(s) {
      CompleteAnsweredOnce(routes, s);
    } else if AnsweredOnce(routes, s) {
      OnceIsReady(routes, s);
      LongerThanMessage(s);
      OnceNotBefore(routes, s, MessageLength(s));
      ReadyExactly(s[..MessageLength(s)], s);
    }
  }

  lemma CompleteAnsweredOnce(routes: Routes, s: string)
    requires Complete(s)
    ensures AnsweredOnce(routes, s)
  {
    hide Run, Complete, Answer, Joined;
    forall chunks | chunks != [] && NonEmpty(chunks) && Joined(chunks) == s
      ensures Run(routes, [], chunks) == (LastOnly(|chunks|, Answer(routes, s)), [])
    {
      assert [] + Joined(chunks) == s;
      RunComplete(routes, [], chunks);
    }
  }

  lemma OnceIsReady(routes: Routes, s: string)
    requires s != [] && AnsweredOnce(routes, s)
    ensures Ready(s)
  {
    hide Run, Answer, Ready, Joined;
    JoinedPair(s, s);
    assert NonEmpty([s]);
    FirstReaction(routes, s, []);
    assert [s] + [] == [s];
  }

  lemma OnceNotBefore(routes: Routes, s: string, n: nat)
    requires 0 < n < |s| && AnsweredOnce(routes, s)
    ensures !Ready(s[..n])
  {
    hide Run, Answer, Ready, Joined;
    var (a, b) := (s[..n], s[n..]);
    JoinedPair(a, b);
    assert a + b == s && NonEmpty([a, b]);
    FirstReaction(routes, a, [b]);
    assert [a] + [b] == [a, b];
  }

  lemma FirstReaction(routes: Routes, chunk: string, more: seq<string>)
    requires chunk != []
    ensures Run(routes, [], [chunk] + more).0[0].Some? <==> Ready(chunk)
  {
    hide Ready, Answer;
    assert [] + chunk == chunk;
    assert ([chunk] + more)[1..] == more;
  }

  lemma LongerThanMessage(s: string)
    requires Ready(s) && !Complete(s)
    ensures HeaderEnd(s).Some? && |s| > MessageLength(s)
  {
    hide HeaderEnd, MessageLength;
    ReadyByLength(s);
  }

  /** A well-formed request that a client writes is answered once, however the network cuts it,
      exactly if its length is announced right; the handler then sees the request with its length. */
  lemma RequestAnswered(routes: Routes, req: Request)
    requires WellFormed(req)
    ensures AnsweredOnce(routes, Serialize(req)) <==> Announced(req)
    ensures Complete(Serialize(req)) <==> Announced(req)
    ensures Answer(routes, Serialize(req)) == Reply(routes, WithLength(req))
  {
    hide Run, Serialize, WellFormed, HeaderEnd, Deserialize, WithLength, ContentLength, Reply, AnsweredOnce, Announced;
    SerializeDeserialize(req);
    SerializedEnd(req);
    WrittenLength(req);
    assert Serialize(req) != [];
    AnsweredOnceExactly(routes, Serialize(req));
  }

  /** Messages that arrive one after the other, each in pieces of its own, are answered one by one. */
  lemma {:induction false} MessagesAnswered(routes: Routes, messages: seq<seq<string>>)
    requires forall i :: 0 <= i < |messages| ==> messages[i] != [] && NonEmpty(messages[i]) && Complete(Joined(messages[i]))
    ensures Run(routes, [], Flattened(messages)) == (Answers(routes, messages), [])
    decreases |messages|
  {
    hide Run, Answer, Joined, Complete;
    if messages == [] {
      RunNone(routes, []);
    } else {
      assert [] + Joined(messages[0]) == Joined(messages[0]);
      RunComplete(routes, [], messages[0]);
      MessagesAnswered(routes, messages[1..]);
      RunConcat(routes, [], messages[0], Flattened(messages[1..]));
    }
  }

  function Flattened(messages: seq<seq<string>>): seq<string> {
    if messages == [] then [] else messages[0] + Flattened(messages[1..])
  }

  /** For every message, the reactions of which only the last one is an answer. */
  function Answers(routes: Routes, messages: seq<seq<string>>): seq<Option<Response>>
    requires forall i :: 0 <= i < |messages| ==> messages[i] != []
  {
    if messages == [] then []
    else LastOnly(|messages[0]|, Answer(routes, Joined(messages[0]))) + Answers(routes, messages[1..])
  }

  // ----- which messages are answered for themselves -----

  /** The texts that are answered, in their order. */
  function Taken(buffer: string, chunks: seq<string>): seq<string>
    decreases |chunks|
  {
    if chunks == [] then []
    else if chunks[0] == [] || !Ready(buffer + chunks[0]) then Taken(buffer + chunks[0], chunks[1..])
    else [buffer + chunks[0]] + Taken([], chunks[1..])
  }

  /** The responses among the reactions. */
  function Given(reactions: seq<Option<Response>>): seq<Response> {
    if reactions == [] then []
    else (if reactions[0].Some? then [reactions[0].value] else []) + Given(reactions[1..])
  }

  function AnswersTo(routes: Routes, texts: seq<string>): (r: seq<Response>)
    ensures |r| == |texts|
  {
    seq(|texts|, i requires 0 <= i < |texts| => Answer(routes, texts[i]))
  }

  /** The responses are the answers to these texts, and every byte is in one of them or still in the
      buffer. */
  lemma {:induction false} TakenAnswered(routes: Routes, buffer: string, chunks: seq<string>)
    ensures Given(Run(routes, buffer, chunks).0) == AnswersTo(routes, Taken(buffer, chunks))
    ensures Joined(Taken(buffer, chunks)) + Run(routes, buffer, chunks).1 == buffer + Joined(chunks)
    decreases |chunks|
  {
    hide Ready, Answer;
    if chunks != [] {
      var (next, reaction) := Feed(routes, buffer, chunks[0]);
      TakenAnswered(routes, next, chunks[1..]);
      var (reactions, left) := Run(routes, next, chunks[1..]);
      assert Run(routes, buffer, chunks) == ([reaction] + reactions, left);
      assert ([reaction] + reactions)[1..] == reactions;
      assert buffer + Joined(chunks) == buffer + chunks[0] + Joined(chunks[1..]);
      if reaction.Some? {
        var texts := Taken([], chunks[1..]);
        assert ([buffer + chunks[0]] + texts)[1..] == texts;
        assert [] + Joined(chunks[1..]) == Joined(chunks[1..]);
      }
    }
  }

  /** Every message ends where a piece ends; the first one has begun in the buffer. */
  ghost predicate Grouped(buffer: string, messages: seq<string>, chunks: seq<string>)
    decreases |messages|
  {
    if messages == [] then chunks == []
    else exists k :: 0 < k <= |chunks| && EndsWith(buffer, messages, chunks, k)
  }

  ghost predicate EndsWith(buffer: string, messages: seq<string>, chunks: seq<string>, k: nat)
    requires messages != [] && k <= |chunks|
    decreases |messages|, 0
  {
    buffer + Joined(chunks[..k]) == messages[0] && Grouped([], messages[1..], chunks[k..])
  }

  /** What is taken first: the pieces up to the one that brings the end of the first message. */
  lemma {:induction false} TakenFirst(buffer: string, chunks: seq<string>, message: string, more: string) returns (k: nat)
    requires NonEmpty(chunks) && Complete(message) && |buffer| < |message|
    requires buffer + Joined(chunks) == message + more
    ensures 0 < k <= |chunks| && |buffer + Joined(chunks[..k - 1])| < |message| <= |buffer + Joined(chunks[..k])|
    ensures Taken(buffer, chunks) == [buffer + Joined(chunks[..k])] + Taken([], chunks[k..])
    decreases |chunks|
  {
    hide Ready, Complete, Joined;
    assert |Joined(chunks)| > 0 by { assert |buffer + Joined(chunks)| == |message + more|; }
    JoinedParts(chunks);
    var next := buffer + chunks[0];
    assert next + Joined(chunks[1..]) == message + more;
    if |next| < |message| {
      assert next == (message + more)[..|next|] == message[..|next|];
      CompleteReady(next, message);
      var j := TakenFirst(next, chunks[1..], message, more);
      JoinedFirst(chunks, j + 1);
      JoinedFirst(chunks, j);
      assert next + Joined(chunks[1..][..j]) == buffer + Joined(chunks[..j + 1]);
      assert next + Joined(chunks[1..][..j - 1]) == buffer + Joined(chunks[..j]);
      assert chunks[1..][j..] == chunks[j + 1..];
      k := j + 1;
    } else {
      assert message == (message + more)[..|message|] == next[..|message|];
      CompleteReady(message, message);
      ReadyOn(message, next);
      k := 1;
    }
  }

  lemma JoinedParts(chunks: seq<string>)
    requires |Joined(chunks)| > 0
    ensures chunks != [] && Joined(chunks) == chunks[0] + Joined(chunks[1..])
    ensures Joined(chunks[..0]) == [] && Joined(chunks[..1]) == chunks[0]
  {
    JoinedPair(chunks[0], []);
    assert chunks[..1] == [chunks[0]];
  }

  lemma JoinedFirst(chunks: seq<string>, k: nat)
    requires 0 < k <= |chunks|
    ensures Joined(chunks[..k]) == chunks[0] + Joined(chunks[1..][..k - 1])
  {
    assert chunks[..k][1..] == chunks[1..][..k - 1];
  }

  lemma {:induction false} JoinedSplit(chunks: seq<string>, k: nat)
    requires k <= |chunks|
    ensures Joined(chunks) == Joined(chunks[..k]) + Joined(chunks[k..])
  {
    if k == 0 {
      assert chunks[..0] == [] && chunks[0..] == chunks;
    } else {
      JoinedFirst(chunks, k);
      JoinedSplit(chunks[1..], k - 1);
      assert chunks[1..][k - 1..] == chunks[k..];
    }
  }

  /** Pieces are not empty, so that more of them are longer. */
  lemma JoinedGrows(chunks: seq<string>, j: nat, k: nat)
    requires NonEmpty(chunks) && j < k <= |chunks|
    ensures |Joined(chunks[..j])| < |Joined(chunks[..k])|
  {
    JoinedSplit(chunks[..k], j);
    assert chunks[..k][..j] == chunks[..j];
    JoinedLonger(chunks[..k][j..]);
  }

  /** However complete messages are cut into pieces, exactly then each of them is answered for itself
      when every message ends where a piece ends. */
  lemma {:induction false} GroupedExactly(buffer: string, messages: seq<string>, chunks: seq<string>)
    requires NonEmpty(chunks) && !Ready(buffer)
    requires forall i :: 0 <= i < |messages| ==> Complete(messages[i])
    requires buffer + Joined(chunks) == Joined(messages)
    ensures Taken(buffer, chunks) == messages <==> Grouped(buffer, messages, chunks)
    decreases |messages|
  {
    hide Ready, Complete, Taken, Joined, Grouped;
    if messages == [] {
      NothingTaken(buffer, chunks);
    } else {
      MessageFirst(messages);
      BeginsWith(buffer, chunks, messages);
      var k := TakenFirst(buffer, chunks, messages[0], Joined(messages[1..]));
      OnlyGroup(buffer, messages, chunks, k);
      var first := buffer + Joined(chunks[..k]);
      assert messages == [messages[0]] + messages[1..];
      assert Taken(buffer, chunks) == messages <==> first == messages[0] && Taken([], chunks[k..]) == messages[1..];
      if first == messages[0] {
        JoinedSplit(chunks, k);
        SameRest(first, Joined(chunks[k..]), Joined(messages[1..]));
        NotReadyEmpty();
        assert [] + Joined(chunks[k..]) == Joined(messages[1..]);
        GroupedExactly([], messages[1..], chunks[k..]);
      }
    }
  }

  lemma NothingTaken(buffer: string, chunks: seq<string>)
    requires NonEmpty(chunks) && buffer + Joined(chunks) == Joined([])
    ensures Taken(buffer, chunks) == [] && Grouped(buffer, [], chunks)
  {
    if chunks != [] { JoinedLonger(chunks); }
  }

  lemma MessageFirst(messages: seq<string>)
    requires messages != []
    ensures Joined(messages) == messages[0] + Joined(messages[1..])
  {}

  lemma SameRest(first: string, a: string, b: string)
    requires first + a == first + b
    ensures a == b
  {
    assert (first + a)[|first|..] == a && (first + b)[|first|..] == b;
  }

  lemma BeginsWith(buffer: string, chunks: seq<string>, messages: seq<string>)
    requires messages != [] && Complete(messages[0]) && buffer + Joined(chunks) == Joined(messages) && !Ready(buffer)
    ensures |buffer| < |messages[0]|
  {
    hide Ready, Complete;
    var m := messages[0];
    if |buffer| >= |m| {
      assert m == Joined(messages)[..|m|] == (buffer + Joined(chunks))[..|m|] == buffer[..|m|];
      CompleteReady(m, m);
      ReadyOn(m, buffer);
    }
  }

  /** A group can only end at the piece that brings the end of the first message. */
  lemma OnlyGroup(buffer: string, messages: seq<string>, chunks: seq<string>, k: nat)
    requires NonEmpty(chunks) && messages != [] && 0 < k <= |chunks|
    requires |buffer + Joined(chunks[..k - 1])| < |messages[0]| <= |buffer + Joined(chunks[..k])|
    ensures Grouped(buffer, messages, chunks)
            <==> buffer + Joined(chunks[..k]) == messages[0] && Grouped([], messages[1..], chunks[k..])
  {
    hide Joined;
    assert EndsWith(buffer, messages, chunks, k)
      <==> buffer + Joined(chunks[..k]) == messages[0] && Grouped([], messages[1..], chunks[k..]);
    forall j | 0 < j <= |chunks| && j != k ensures !EndsWith(buffer, messages, chunks, j) {
      if j < k - 1 { JoinedGrows(chunks, j, k - 1); }
      if j > k { JoinedGrows(chunks, k, j); }
    }
  }

  lemma NotReadyEmpty()
    ensures !Ready([])
  {}

  lemma NotEmpty(s: string)
    requires Complete(s)
    ensures s != []
  {}

  // ----- all clients -----

  type Buffers = map<ClientId, string>

  function BufferOf(buffers: Buffers, id: ClientId): string {
    if id in buffers then buffers[id] else []
  }

  /** What one chunk does to the buffers, and the response to it. */
  function Step(routes: Routes, buffers: Buffers, id: ClientId, chunk: string): (Buffers, Option<Response>) {
    var whole := BufferOf(buffers, id) + chunk;
    if chunk == [] then (buffers, None)
    else if Ready(whole) then (buffers - {id}, Some(Answer(routes, whole)))
    else (buffers[id := whole], None)
  }

  datatype Event = Event(client: ClientId, chunk: string)

  function Serve(routes: Routes, buffers: Buffers, events: seq<Event>): (r: (seq<Option<Response>>, Buffers))
    ensures |r.0| == |events|
    decreases |events|
  {
    if events == [] then ([], buffers)
    else
      var (next, reaction) := Step(routes, buffers, events[0].client, events[0].chunk);
      var (reactions, left) := Serve(routes, next, events[1..]);
      ([reaction] + reactions, left)
  }

  /** The chunks of one client. */
  function ChunksOf(events: seq<Event>, id: ClientId): seq<string> {
    if events == [] then []
    else if events[0].client == id then [events[0].chunk] + ChunksOf(events[1..], id)
    else ChunksOf(events[1..], id)
  }

  function ReactionsTo(events: seq<Event>, reactions: seq<Option<Response>>, id: ClientId): seq<Option<Response>>
    requires |events| == |reactions|
    decreases |events|
  {
    if events == [] then []
    else if events[0].client == id then [reactions[0]] + ReactionsTo(events[1..], reactions[1..], id)
    else ReactionsTo(events[1..], reactions[1..], id)
  }

  lemma StepFeeds(routes: Routes, buffers: Buffers, id: ClientId, chunk: string, other: ClientId)
    ensures var (next, reaction) := Step(routes, buffers, id, chunk);
            (BufferOf(next, id), reaction) == Feed(routes, BufferOf(buffers, id), chunk)
            && (other != id ==> BufferOf(next, other) == BufferOf(buffers, other))
  {
    hide Ready, Answer;
    if chunk == [] { assert BufferOf(buffers, id) + chunk == BufferOf(buffers, id); }
  }

  /** Whatever the other clients send in between, each client is served as if it were alone. */
  lemma {:induction false} ClientsApart(routes: Routes, buffers: Buffers, events: seq<Event>, id: ClientId)
    ensures var (reactions, left) := Serve(routes, buffers, events);
            (ReactionsTo(events, reactions, id), BufferOf(left, id))
            == Run(routes, BufferOf(buffers, id), ChunksOf(events, id))
    decreases |events|
  {
    hide Step, Feed, BufferOf;
    if events == [] {
      RunNone(routes, BufferOf(buffers, id));
    } else {
      var e := events[0];
      var (next, reaction) := Step(routes, buffers, e.client, e.chunk);
      var (reactions, left) := Serve(routes, next, events[1..]);
      StepFeeds(routes, buffers, e.client, e.chunk, id);
      ClientsApart(routes, next, events[1..], id);
      assert ([reaction] + reactions)[1..] == reactions;
      if e.client == id {
        var chunks := ChunksOf(events[1..], id);
        assert ([e.chunk] + chunks)[1..] == chunks;
      }
    }
  }

  /** A client whose bytes make up one complete message, with what is left in its buffer from
      before, gets one response, to its last chunk, among any traffic of other clients. */
  lemma ServedAmongOthers(routes: Routes, buffers: Buffers, events: seq<Event>, id: ClientId)
    requires ChunksOf(events, id) != [] && NonEmpty(ChunksOf(events, id))
    requires Complete(BufferOf(buffers, id) + Joined(ChunksOf(events, id)))
    ensures var (reactions, left) := Serve(routes, buffers, events);
            var (text, n) := (BufferOf(buffers, id) + Joined(ChunksOf(events, id)), |ChunksOf(events, id)|);
            ReactionsTo(events, reactions, id) == LastOnly(n, Answer(routes, text)) && BufferOf(left, id) == []
  {
    hide Run, Serve, Answer, Complete, BufferOf, Joined;
    ClientsApart(routes, buffers, events, id);
    RunComplete(routes, BufferOf(buffers, id), ChunksOf(events, id));
  }

  /** A client that sends one complete message after the other, each in chunks of its own, gets the
      answer to each, among any traffic of other clients. */
  lemma ConversationServed(routes: Routes, buffers: Buffers, events: seq<Event>, id: ClientId, messages: seq<seq<string>>)
    requires forall i :: 0 <= i < |messages| ==> messages[i] != [] && NonEmpty(messages[i]) && Complete(Joined(messages[i]))
    requires BufferOf(buffers, id) == [] && ChunksOf(events, id) == Flattened(messages)
    ensures var (reactions, left) := Serve(routes, buffers, events);
            ReactionsTo(events, reactions, id) == Answers(routes, messages) && BufferOf(left, id) == []
  {
    hide Run, Serve, Answers, Complete, BufferOf, Joined;
    ClientsApart(routes, buffers, events, id);
    MessagesAnswered(routes, messages);
  }

  /** The texts of one client that are answered while all are served. */
  function TakenOf(routes: Routes, buffers: Buffers, events: seq<Event>, id: ClientId): seq<string>
    decreases |events|
  {
    if events == [] then []
    else
      var e := events[0];
      var whole := BufferOf(buffers, e.client) + e.chunk;
      (if e.client == id && e.chunk != [] && Ready(whole) then [whole] else [])
      + TakenOf(routes, Step(routes, buffers, e.client, e.chunk).0, events[1..], id)
  }

  lemma {:induction false} TakenApart(routes: Routes, buffers: Buffers, events: seq<Event>, id: ClientId)
    ensures TakenOf(routes, buffers, events, id) == Taken(BufferOf(buffers, id), ChunksOf(events, id))
    decreases |events|
  {
    hide Step, BufferOf, Ready;
    if events != [] {
      var e := events[0];
      StepFeeds(routes, buffers, e.client, e.chunk, id);
      TakenApart(routes, Step(routes, buffers, e.client, e.chunk).0, events[1..], id);
      if e.client == id {
        var chunks := ChunksOf(events[1..], id);
        assert ([e.chunk] + chunks)[1..] == chunks;
      }
    }
  }

  /** No buffer holds a complete message. */
  ghost predicate Unready(buffers: Buffers) {
    forall id: ClientId :: !Ready(BufferOf(buffers, id))
  }

  lemma StepUnready(routes: Routes, buffers: Buffers, id: ClientId, chunk: string)
    requires Unready(buffers)
    ensures Unready(Step(routes, buffers, id, chunk).0)
  {
    hide Ready, Answer, Step, BufferOf;
    var next := Step(routes, buffers, id, chunk).0;
    NotReadyEmpty();
    assert BufferOf(buffers, id) + [] == BufferOf(buffers, id);
    forall other: ClientId ensures !Ready(BufferOf(next, other)) {
      StepFeeds(routes, buffers, id, chunk, other);
      assert other != id ==> !Ready(BufferOf(buffers, other));
      assert !Ready(BufferOf(buffers, id));
    }
  }

  lemma {:induction false} ServeUnready(routes: Routes, buffers: Buffers, events: seq<Event>)
    requires Unready(buffers)
    ensures Unready(Serve(routes, buffers, events).1)
    decreases |events|
  {
    hide Ready, Answer, Step, BufferOf;
    if events != [] {
      StepUnready(routes, buffers, events[0].client, events[0].chunk);
      ServeUnready(routes, Step(routes, buffers, events[0].client, events[0].chunk).0, events[1..]);
    }
  }

  /** Among any traffic of others, each of the messages of a client is answered for itself exactly if
      every one of them ends where a piece ends; then nothing of them is left in the buffer. */
  lemma GroupedAmongOthers(routes: Routes, buffers: Buffers, events: seq<Event>, id: ClientId, messages: seq<string>)
    requires Unready(buffers) && NonEmpty(ChunksOf(events, id))
    requires forall i :: 0 <= i < |messages| ==> Complete(messages[i])
    requires BufferOf(buffers, id) + Joined(ChunksOf(events, id)) == Joined(messages)
    ensures var texts := TakenOf(routes, buffers, events, id);
            (texts == messages <==> Grouped(BufferOf(buffers, id), messages, ChunksOf(events, id)))
            && Given(ReactionsTo(events, Serve(routes, buffers, events).0, id)) == AnswersTo(routes, texts)
            && (texts == messages ==> BufferOf(Serve(routes, buffers, events).1, id) == [])
  {
    hide Run, Serve, Answer, Complete, BufferOf, Joined, Taken, TakenOf, Ready;
    var (buffer, chunks) := (BufferOf(buffers, id), ChunksOf(events, id));
    TakenApart(routes, buffers, events, id);
    ClientsApart(routes, buffers, events, id);
    TakenAnswered(routes, buffer, chunks);
    GroupedExactly(buffer, messages, chunks);
    var left := Run(routes, buffer, chunks).1;
    if Taken(buffer, chunks) == messages { assert |Joined(messages) + left| == |Joined(messages)|; }
  }

  // ----- the program -----

  function StatusCode(status: Status): int {
    match status
    case Ok => 200
    case BadRequest => 400
    case NotFound => 404
    case InternalServerError => 500
  }

  /** A text response as it is sent. */
  function ResponseText(r: Response): string {
    HttpResponse.SerializeResponse(HttpResponse.MakeText(StatusCode(r.status), r.text))
  }

  // ----- what a client sees -----

  /** The client reads this code and this text, up to a null character, with the length of the text. */
  predicate Reads(bytes: string, code: int, text: string) {
    var seen := HttpResponse.DeserializeResponse(bytes);
    seen.Some? && seen.value.code == Some(code) && seen.value.body == text[..UpTo(text, '\0')]
    && HttpResponse.LengthSeen(seen.value) == |text|
  }

  lemma ResponseReads(r: Response)
    requires |r.text| < 0x1_0000_0000_0000_0000
    ensures Reads(ResponseText(r), StatusCode(r.status), r.text)
    ensures forall code: int, text: string :: Reads(ResponseText(r), code, text) ==> code == StatusCode(r.status)
  {
    hide HttpResponse.DeserializeResponse, HttpResponse.SerializeResponse, HttpResponse.MakeText, HttpResponse.LengthSeen, UpTo;
    HttpResponse.TextSeen(StatusCode(r.status), r.text);
  }

  /** What happens to a request: the newest handler of its method and path decides. */
  datatype Fate = Answered(text: string) | Failed(what: string) | Unrouted | Unreadable

  ghost predicate Newest(bindings: seq<Binding>, req: Request, i: nat) {
    i < |bindings| && Matches(bindings[i], req) && forall k :: i < k < |bindings| ==> !Matches(bindings[k], req)
  }

  ghost predicate HasFate(bindings: seq<Binding>, text: string, fate: Fate) {
    var req := Deserialize(text);
    match fate
    case Unreadable => req.None?
    case Unrouted => req.Some? && forall i :: 0 <= i < |bindings| ==> !Matches(bindings[i], req.value)
    case Answered(body) =>
      req.Some? && exists i: nat :: Newest(bindings, req.value, i) && bindings[i].handler(req.value) == Body(body)
    case Failed(what) =>
      req.Some? && exists i: nat :: Newest(bindings, req.value, i) && bindings[i].handler(req.value) == Threw(what)
  }

  /** The code and the text that the client is told. */
  predicate Tells(fate: Fate, path: string, code: int, text: string) {
    match fate
    case Answered(body) => code == 200 && text == body
    case Failed(what) => code == 500 && text == "Internal Server Error: " + what
    case Unrouted => code == 404 && text == "Not Found: " + path
    case Unreadable => code == 400 && text == "Bad Request"
  }

  function PathOf(text: string): string {
    match Deserialize(text)
    case None => []
    case Some(req) => req.path
  }

  lemma {:induction false} NewestExists(bindings: seq<Binding>, req: Request) returns (i: nat)
    requires exists k :: 0 <= k < |bindings| && Matches(bindings[k], req)
    ensures Newest(bindings, req, i)
  {
    var n := |bindings| - 1;
    if Matches(bindings[n], req) {
      i := n;
    } else {
      var k :| 0 <= k < |bindings| && Matches(bindings[k], req);
      assert bindings[..n][k] == bindings[k];
      i := NewestExists(bindings[..n], req);
    }
  }

  lemma NewestUnique(bindings: seq<Binding>, req: Request, i: nat, j: nat)
    requires Newest(bindings, req, i) && Newest(bindings, req, j)
    ensures i == j && i < |bindings| && Matches(bindings[i], req)
    ensures forall k :: i < k < |bindings| ==> !Matches(bindings[k], req)
  {}

  function FateOf(h: Handled): Fate {
    match h
    case Body(text) => Answered(text)
    case Threw(what) => Failed(what)
  }

  lemma RoutedFate(bindings: seq<Binding>, text: string, req: Request, i: nat)
    requires Deserialize(text) == Some(req) && Newest(bindings, req, i)
    ensures forall other: Fate :: HasFate(bindings, text, other) <==> other == FateOf(bindings[i].handler(req))
  {
    hide Deserialize, Newest;
    NewestUnique(bindings, req, i, i);
    forall j: nat | Newest(bindings, req, j) ensures j == i {
      NewestUnique(bindings, req, i, j);
    }
    assert exists k :: 0 <= k < |bindings| && Matches(bindings[k], req);
  }

  /** Every text has one fate, and the answer to it tells it. */
  lemma AnswerTells(bindings: seq<Binding>, text: string) returns (fate: Fate)
    ensures forall other: Fate :: HasFate(bindings, text, other) <==> other == fate
    ensures var r := Answer(Bound(bindings), text); Tells(fate, PathOf(text), StatusCode(r.status), r.text)
  {
    hide Deserialize, Bound, HasFate, Reply, Newest;
    if Deserialize(text).None? {
      fate := Unreadable;
      NoRequest(bindings, text);
    } else {
      var req := Deserialize(text).value;
      if exists k :: 0 <= k < |bindings| && Matches(bindings[k], req) {
        var i := NewestExists(bindings, req);
        NewestUnique(bindings, req, i, i);
        RoutedFate(bindings, text, req, i);
        NewestDecides(bindings, i, req);
        fate := FateOf(bindings[i].handler(req));
      } else {
        NoneDecides(bindings, req);
        NoRoute(bindings, text, req);
        fate := Unrouted;
      }
    }
  }

  lemma NoRequest(bindings: seq<Binding>, text: string)
    requires Deserialize(text).None?
    ensures forall other: Fate :: HasFate(bindings, text, other) <==> other == Unreadable
  {
    hide Deserialize;
  }

  lemma NoRoute(bindings: seq<Binding>, text: string, req: Request)
    requires Deserialize(text) == Some(req) && forall k :: 0 <= k < |bindings| ==> !Matches(bindings[k], req)
    ensures forall other: Fate :: HasFate(bindings, text, other) <==> other == Unrouted
  {
    hide Deserialize;
  }

  /** The bytes tell a client the fate of its text: 200 with the text of the handler exactly if the
      newest binding that matches returns it, 500 exactly if that handler throws, 404 exactly if no
      binding matches, and 400 exactly if the text is no request. */
  ghost predicate Told(bindings: seq<Binding>, text: string, bytes: string) {
    var seen := HttpResponse.DeserializeResponse(bytes);
    && (forall fate: Fate :: HasFate(bindings, text, fate) ==> TellsIn(bytes, fate, PathOf(text)))
    && seen.Some? && seen.value.code.Some?
    && var code := seen.value.code.value;
       && (code == 200 <==> exists body :: HasFate(bindings, text, Answered(body)))
       && (code == 500 <==> exists what :: HasFate(bindings, text, Failed(what)))
       && (code == 404 <==> HasFate(bindings, text, Unrouted))
       && (code == 400 <==> HasFate(bindings, text, Unreadable))
  }

  ghost predicate TellsIn(bytes: string, fate: Fate, path: string) {
    exists code: int, told: string :: Tells(fate, path, code, told) && Reads(bytes, code, told)
  }

  lemma ClientSees(bindings: seq<Binding>, text: string)
    requires |Answer(Bound(bindings), text).text| < 0x1_0000_0000_0000_0000
    ensures Told(bindings, text, ResponseText(Answer(Bound(bindings), text)))
  {
    hide HttpResponse.DeserializeResponse, HttpResponse.LengthSeen, UpTo, ResponseText, Answer, Bound, HasFate, PathOf;
    var r := Answer(Bound(bindings), text);
    var actual := AnswerTells(bindings, text);
    ResponseReads(r);
  }

  lemma AnswersTold(bindings: seq<Binding>, routes: Routes, text: string)
    requires routes == Bound(bindings)
    ensures |Answer(routes, text).text| < 0x1_0000_0000_0000_0000 ==> Told(bindings, text, ResponseText(Answer(routes, text)))
  {
    hide Told, Answer, ResponseText, Bound;
    if |Answer(routes, text).text| < 0x1_0000_0000_0000_0000 { ClientSees(bindings, text); }
  }

  /** What is written to the clients in reaction to events. */
  function Output(events: seq<Event>, reactions: seq<Option<Response>>): seq<(ClientId, string)>
    requires |events| == |reactions|
    decreases |events|
  {
    if events == [] then []
    else
      (if reactions[0].Some? then [(events[0].client, ResponseText(reactions[0].value))] else [])
      + Output(events[1..], reactions[1..])
  }

  class Server {
    var routes: Routes
    var buffers: Buffers
    var written: seq<(ClientId, string)>
    ghost var bindings: seq<Binding>

    /** The routes are those of all bindings so far. */
    ghost predicate Valid()
      reads this
    {
      routes == Bound(bindings)
    }

    constructor ()
      ensures Valid() && bindings == [] && routes == map[] && buffers == map[] && written == []
    {
      routes, bindings := map[], [];
      buffers := map[];
      written := [];
    }

    method Route(verb: Method, path: string, handler: Handler)
      requires Valid()
      modifies this`routes, this`bindings
      ensures Valid() && bindings == old(bindings) + [Binding(verb, path, handler)]
      ensures routes == old(routes)[(verb, path) := handler]
      ensures forall req: Request ::
                Reply(routes, req) == if Matches(Binding(verb, path, handler), req) then Handle(handler, req)
                                      else Reply(old(routes), req)
    {
      routes := routes[(verb, path) := handler];
      bindings := bindings + [Binding(verb, path, handler)];
      assert bindings[..|bindings| - 1] == old(bindings);
    }

    /** `data` is what the connection of the client holds; what is written tells the client the fate of
        its text. */
    method HandleClient(id: ClientId, data: string)
      requires Valid()
      modifies this`buffers, this`written
      ensures var (next, reaction) := Step(routes, old(buffers), id, data);
              buffers == next
              && written == old(written) + (if reaction.Some? then [(id, ResponseText(reaction.value))] else [])
      ensures var reaction := Step(routes, old(buffers), id, data).1;
              reaction.Some? && |reaction.value.text| < 0x1_0000_0000_0000_0000 ==>
                Told(bindings, BufferOf(old(buffers), id) + data, written[|written| - 1].1)
    {
      hide HeaderEnd, Deserialize, ContentLength, HttpResponse.SerializeResponse, HttpResponse.MakeText, Told, Bound;
      ghost var whole := BufferOf(buffers, id) + data;
      AnswersTold(bindings, routes, whole);
      if data == [] {
        return;
      }
      buffers := buffers[id := BufferOf(buffers, id) + data];
      var buffer := buffers[id];
      var headerEnd := HeaderEnd(buffer);
      if headerEnd.None? {
        return;
      }
      var parsed := HttpStream.DeserializeRequest(buffer);
      if parsed.None? {
        var refusal := HttpResponse.WriteResponse(HttpResponse.MakeText(StatusCode(BadRequest), "Bad Request"));
        written := written + [(id, refusal)];
        buffers := buffers - {id};
        assert buffers == old(buffers) - {id};
        return;
      }
      var req := parsed.value;
      var contentLength := ContentLength(req);
      var bodyStart := headerEnd.value + 4;
      if |buffer| - bodyStart < contentLength {
        return;
      }
      var response;
      var key := (req.verb, req.path);
      if key in routes {
        response := Handle(routes[key], req);
      } else {
        response := Unbound(req);
      }
      var reply := HttpResponse.WriteResponse(HttpResponse.MakeText(StatusCode(response.status), response.text));
      written := written + [(id, reply)];
      buffers := buffers - {id};
      assert buffers == old(buffers) - {id};
    }

    /** One round over the connected clients with the data that each has ready. */
    method Tick(events: seq<Event>)
      requires Valid()
      modifies this`buffers, this`written
      ensures var (reactions, left) := Serve(routes, old(buffers), events);
              buffers == left && written == old(written) + Output(events, reactions)
    {
      hide Step, ResponseText;
      var i := 0;
      OutputNone();
      while i < |events|
        invariant i <= |events|
        invariant Serve(routes, buffers, events[i..]).1 == Serve(routes, old(buffers), events).1
        invariant written + Output(events[i..], Serve(routes, buffers, events[i..]).0)
                  == old(written) + Output(events, Serve(routes, old(buffers), events).0)
      {
        ghost var before := buffers;
        ghost var sent := written;
        HandleClient(events[i].client, events[i].chunk);
        ServeStep(routes, before, events, i);
        i := i + 1;
      }
      assert events[i..] == [];
    }
  }

  lemma OutputNone()
    ensures Output([], []) == []
  {}

  lemma ServeStep(routes: Routes, buffers: Buffers, events: seq<Event>, i: nat)
    requires i < |events|
    ensures var (next, reaction) := Step(routes, buffers, events[i].client, events[i].chunk);
            var (reactions, left) := Serve(routes, buffers, events[i..]);
            left == Serve(routes, next, events[i + 1..]).1
            && Output(events[i..], reactions)
               == (if reaction.Some? then [(events[i].client, ResponseText(reaction.value))] else [])
                  + Output(events[i + 1..], Serve(routes, next, events[i + 1..]).0)
  {
    hide Step, ResponseText;
    assert events[i..][0] == events[i] && events[i..][1..] == events[i + 1..];
    var (next, reaction) := Step(routes, buffers, events[i].client, events[i].chunk);
    var rest := Serve(routes, next, events[i + 1..]).0;
    assert ([reaction] + rest)[1..] == rest;
  }
}
