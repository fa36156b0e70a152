/** The router that spreads stores over three servers in turn (router.c) and the
    message dispatch of each server (server.c). Channels deliver every message. */
module ShardRouter {
  import opened HashChain

  const NUM_SERVERS: nat := 3

  // ---------------------------------------------------------------- messages

  /** The C string at the start of a received buffer. */
  function CString(bytes: seq<char>): string {
    if |bytes| == 0 || bytes[0] == '\0' then "" else [bytes[0]] + CString(bytes[1..])
  }

  lemma {:induction false} CStringIsPrefix(bytes: seq<char>)
    ensures CString(bytes) <= bytes && '\0' !in CString(bytes)
    ensures |CString(bytes)| < |bytes| ==> bytes[|CString(bytes)|] == '\0'
  {
    if |bytes| > 0 && bytes[0] != '\0' {
      CStringIsPrefix(bytes[1..]);
    }
  }

  datatype Request = Close | Exit | RetrieveAll | Put(payload: string)

  /** How the router reads a message; an empty one is a closed connection. */
  function Parse(bytes: seq<char>): Request {
    if |bytes| == 0 then Close
    else if CString(bytes) == "EXIT" then Exit
    else if CString(bytes) == "RETRIEVE" then RetrieveAll
    else Put(CString(bytes))
  }

  /** A message that ends the session. */
  predicate Ends(bytes: seq<char>) {
    Parse(bytes).Close? || Parse(bytes).Exit?
  }

  /** How many messages of a session are answered: those before its first EXIT or closing. */
  ghost function Answered(session: seq<seq<char>>): (n: nat)
    ensures n <= |session| && (n < |session| ==> Ends(session[n]))
    ensures forall i :: 0 <= i < n ==> !Ends(session[i])
  {
    if |session| == 0 || Ends(session[0]) then 0 else 1 + Answered(session[1..])
  }

  /** The payloads among the messages, in order. */
  ghost function Puts(messages: seq<seq<char>>): seq<string> {
    if |messages| == 0 then [] else
    var n := |messages| - 1;
    Puts(messages[..n]) + match Parse(messages[n]) case Put(payload) => [payload] case _ => []
  }

  /** The payloads a session stores. */
  ghost function SessionStores(session: seq<seq<char>>): seq<string> {
    Puts(session[..Answered(session)])
  }

  /** The payloads of all sessions, one after another. */
  ghost function AllStores(sessions: seq<seq<seq<char>>>): seq<string> {
    if |sessions| == 0 then [] else AllStores(sessions[..|sessions| - 1]) + SessionStores(sessions[|sessions| - 1])
  }

  /** The C strings of the messages other than RETRIEVE, by their indices. */
  ghost predicate StoredFrom(messages: seq<seq<char>>, from: seq<nat>, payloads: seq<string>) {
    && |from| == |payloads| && (forall j, k :: 0 <= j < k < |from| ==> from[j] < from[k])
    && (forall j :: 0 <= j < |from| ==> from[j] < |messages| && payloads[j] == CString(messages[from[j]]))
    && (forall i :: 0 <= i < |messages| ==> (i in from <==> CString(messages[i]) != "RETRIEVE"))
  }

  /** Among messages that are neither empty nor EXIT, the payloads are the C strings of
      all but the RETRIEVEs, in order. */
  lemma {:induction false} PutsInBytes(messages: seq<seq<char>>) returns (from: seq<nat>)
    requires forall i :: 0 <= i < |messages| ==> messages[i] != [] && CString(messages[i]) != "EXIT"
    ensures StoredFrom(messages, from, Puts(messages))
    decreases |messages|
  {
    hide CString;
    from := [];
    if |messages| > 0 {
      var n := |messages| - 1;
      from := PutsInBytes(messages[..n]);
      if CString(messages[n]) != "RETRIEVE" { from := from + [n]; }
    }
  }

  /** A session on its bytes: it is answered up to the first message that is empty or
      reads EXIT, and stores, in order, what the other messages before that read,
      except for RETRIEVE. */
  lemma SessionInBytes(session: seq<seq<char>>) returns (from: seq<nat>)
    ensures
      var n, stored := Answered(session), SessionStores(session);
      && n <= |session| && (n < |session| ==> session[n] == [] || CString(session[n]) == "EXIT")
      && (forall i :: 0 <= i < n ==> session[i] != [] && CString(session[i]) != "EXIT")
      && |from| == |stored| && (forall j, k :: 0 <= j < k < |from| ==> from[j] < from[k])
      && (forall j :: 0 <= j < |from| ==> from[j] < n && stored[j] == CString(session[from[j]]))
      && (forall i :: 0 <= i < n ==> (i in from <==> CString(session[i]) != "RETRIEVE"))
  {
    hide CString, Puts;
    from := PutsInBytes(session[..Answered(session)]);
  }

  lemma PutsNext(messages: seq<seq<char>>, i: nat)
    requires i < |messages|
    ensures Puts(messages[..i + 1]) ==
      Puts(messages[..i]) + match Parse(messages[i]) case Put(payload) => [payload] case _ => []
  {
    assert messages[..i + 1][..i] == messages[..i] && messages[..i + 1][i] == messages[i];
  }

  lemma StoresNext(sessions: seq<seq<seq<char>>>, i: nat)
    requires i < |sessions|
    ensures AllStores(sessions[..i + 1]) == AllStores(sessions[..i]) + SessionStores(sessions[i])
  {
    assert sessions[..i + 1][..i] == sessions[..i] && sessions[..i + 1][i] == sessions[i];
  }

  /** A message whose C string is empty would reach a server as a closed connection. */
  ghost predicate Deliverable(session: seq<seq<char>>) {
    forall i :: 0 <= i < |session| ==> |session[i]| > 0 ==> CString(session[i]) != ""
  }

  // ---------------------------------------------------------------- dealing out

  /** Payloads number i, i + 3, i + 6, ... */
  ghost function Dealt(stores: seq<string>, i: nat): seq<string>
    requires i < NUM_SERVERS
    decreases |stores|
  {
    if |stores| == 0 then [] else
    var n := |stores| - 1;
    Dealt(stores[..n], i) + if n % NUM_SERVERS == i then [stores[n]] else []
  }

  /** Store number k is entry k / 3 of shard k mod 3, and no shard holds anything else. */
  lemma {:induction false} DealtExactly(stores: seq<string>, i: nat)
    requires i < 3
    ensures |Dealt(stores, i)| == (|stores| + 2 - i) / 3
    ensures forall j :: 0 <= j < |Dealt(stores, i)| ==>
      3 * j + i < |stores| && Dealt(stores, i)[j] == stores[3 * j + i]
    decreases |stores|
  {
    if |stores| > 0 {
      var n := |stores| - 1;
      DealtExactly(stores[..n], i);
      var d := Dealt(stores[..n], i);
      assert n % NUM_SERVERS == i ==> NUM_SERVERS * |d| + i == n;
    }
  }

  /** Shard sizes differ by at most one, and together they hold every store once. */
  lemma ShardsBalanced(stores: seq<string>)
    ensures |Dealt(stores, 0)| + |Dealt(stores, 1)| + |Dealt(stores, 2)| == |stores|
    ensures forall i, j :: 0 <= i <= j < NUM_SERVERS ==>
      |Dealt(stores, j)| <= |Dealt(stores, i)| <= |Dealt(stores, j)| + 1
  {
    DealtExactly(stores, 0);
    DealtExactly(stores, 1);
    DealtExactly(stores, 2);
  }

  /** One more store goes to the next shard in turn and leaves the others alone. */
  lemma DealNext(stores: seq<string>, payload: string, i: nat)
    requires i < NUM_SERVERS
    ensures Dealt(stores + [payload], i) ==
      Dealt(stores, i) + if |stores| % NUM_SERVERS == i then [payload] else []
  {
    var all := stores + [payload];
    assert all[..|all| - 1] == stores;
  }

  // ---------------------------------------------------------------- answers

  /** What a server that was asked to store the payloads answers to RETRIEVE: all its
      blocks, each linked to its predecessor, if the chain is accepted. */
  ghost predicate AnswerFor(h: string -> Digest, payloads: seq<string>, answer: Answer) {
    if Accepts(h, StoreAll(h, payloads)) then
      && answer.Blocks? && SameButLinks(StoreAll(h, payloads), answer.recs)
      && forall i :: 0 <= i < |answer.recs| ==> answer.recs[i].prev == Predecessor(answer.recs, i)
    else
      answer == Refused
  }

  /** Up to two payloads are always listed; from the third on, RETRIEVE is refused
      unless hashing with the first and with the previous hash agrees everywhere. */
  lemma RefusedExactly(h: string -> Digest, payloads: seq<string>, answer: Answer)
    requires AnswerFor(h, payloads, answer)
    ensures |payloads| <= 2 ==> answer.Blocks?
    ensures |StoreAll(h, payloads)| == |payloads|
    ensures answer == Refused <==>
      exists k :: 2 <= k < |payloads| && !SameDigest(h, StoreAll(h, payloads), k)
  {
    hide SameDigest, StoreAll, Accepts, SameButLinks;
    VerdictAfterStores(h, payloads);
    ForallExists(h, payloads);
  }

  lemma ForallExists(h: string -> Digest, payloads: seq<string>)
    requires |StoreAll(h, payloads)| == |payloads|
    requires Accepts(h, StoreAll(h, payloads)) <==>
      forall k :: 2 <= k < |StoreAll(h, payloads)| ==> SameDigest(h, StoreAll(h, payloads), k)
    ensures !Accepts(h, StoreAll(h, payloads)) <==>
      exists k :: 2 <= k < |payloads| && !SameDigest(h, StoreAll(h, payloads), k)
  {
    hide SameDigest, StoreAll, Accepts;
  }

  /** What the router sends back for one message. */
  datatype Reply = Listings(answers: seq<Answer>) | Stored(answer: Answer)

  /** The listings of all three servers after the stores. */
  ghost predicate AnswersFor(h: string -> Digest, stores: seq<string>, answers: seq<Answer>) {
    |answers| == NUM_SERVERS && forall i :: 0 <= i < NUM_SERVERS ==> AnswerFor(h, Dealt(stores, i), answers[i])
  }

  /** The reply to a request that arrives after the stores. */
  ghost predicate ReplyTo(h: string -> Digest, stores: seq<string>, request: Request, reply: Reply) {
    match request
    case RetrieveAll => reply.Listings? && AnswersFor(h, stores, reply.answers)
    case Put(_) => reply == Stored(DataStored)
    case _ => false
  }

  /** The replies of a session that starts after the stores: one to each message that
      is answered, in the state the messages before it have left. */
  ghost predicate SessionReplies(h: string -> Digest, stores: seq<string>,
    session: seq<seq<char>>, replies: seq<Reply>)
  {
    && |replies| == Answered(session)
    && forall i :: 0 <= i < |replies| ==> ReplyTo(h, stores + Puts(session[..i]), Parse(session[i]), replies[i])
  }

  /** The replies on the bytes: none from the first empty message or EXIT on, listings
      to RETRIEVE, and DATA_STORED to everything else. */
  lemma RepliesInBytes(h: string -> Digest, stores: seq<string>, session: seq<seq<char>>, replies: seq<Reply>)
    requires SessionReplies(h, stores, session, replies)
    ensures |replies| <= |session|
    ensures |replies| < |session| ==> session[|replies|] == [] || CString(session[|replies|]) == "EXIT"
    ensures forall i :: 0 <= i < |replies| ==> session[i] != [] && CString(session[i]) != "EXIT"
    ensures forall i :: 0 <= i < |replies| ==>
      if CString(session[i]) == "RETRIEVE" then replies[i].Listings? else replies[i] == Stored(DataStored)
  {
    hide CString, AnswersFor, Puts;
  }

  // ---------------------------------------------------------------- servers and router

  lemma SameTransitive(a: seq<Record>, b: seq<Record>, c: seq<Record>)
    requires SameButLinks(a, b) && SameButLinks(b, c)
    ensures SameButLinks(a, c)
  {
  }

  /** One server with the payloads it was asked to store. */
  class Server {
    const chain: Chain
    ghost var payloads: seq<string>
    ghost var repr: set<object>

    /** The chain holds exactly the payloads, in order, each cut to 255 characters. */
    ghost predicate Valid()
      reads this, repr
      ensures Valid() ==> this in repr
    {
      && this in repr && chain in repr && chain.repr <= repr && this !in chain.repr
      && chain.Valid() && SameButLinks(StoreAll(chain.h, payloads), chain.recs)
    }

    /** The blocks of the chain. */
    ghost function Recs(): seq<Record>
      requires Valid()
      reads this, repr
    {
      chain.recs
    }

    constructor (h: string -> Digest)
      ensures Valid() && payloads == [] && chain.h == h && fresh(repr) && Recs() == []
    {
      var c := new Chain(h);
      chain := c;
      payloads := [];
      repr := {this} + c.repr;
    }

    lemma HoldsAll()
      requires Valid()
      ensures |Recs()| == |payloads|
    {
      if |payloads| > 0 { StoredBlock(chain.h, payloads, 0); }
    }

    lemma Holds(j: nat)
      requires Valid() && j < |payloads|
      ensures j < |Recs()| && Recs()[j].data <= payloads[j]
      ensures |Recs()[j].data| == if |payloads[j]| <= 255 then |payloads[j]| else 255
    {
      StoredData(chain.h, payloads, j);
    }

    /** The body of the server's message loop for a message that is not empty. */
    method Handle(message: string) returns (answer: Answer)
      requires Valid()
      modifies repr
      ensures Valid() && fresh(repr - old(repr)) && repr >= old(repr)
      ensures payloads == if message == "RETRIEVE" then old(payloads) else old(payloads) + [message]
      ensures message == "RETRIEVE" ==> SameButLinks(old(Recs()), Recs())
      ensures if message == "RETRIEVE" then AnswerFor(chain.h, payloads, answer) else answer == DataStored
    {
      hide Accepts, StoreAll, NewRecord, SameButLinks, Relinked, Checks;
      if message == "RETRIEVE" {
        VerdictIgnoresLinks(chain.h, StoreAll(chain.h, payloads), chain.recs);
        ghost var before := chain.recs;
        answer := chain.Retrieve();
        SameTransitive(StoreAll(chain.h, payloads), before, chain.recs);
      } else {
        StoreFollows(chain.h, payloads, chain.recs, message);
        ghost var before := chain.recs;
        var ok, walked := chain.Store(message);
        ghost var added := before + [NewRecord(chain.h, before, message)];
        SameTransitive(StoreAll(chain.h, payloads + [message]), added, chain.recs);
        payloads := payloads + [message];
        repr := repr + chain.repr;
        answer := DataStored;
      }
    }
  }

  /** The router: whose turn it is, and the three servers it talks to. */
  class Router {
    const server0: Server
    const server1: Server
    const server2: Server
    /** The hash all servers use. */
    ghost const h: string -> Digest
    var current_server: nat
    /** Every payload stored so far, in order. */
    ghost var stores: seq<string>

    function Shard(i: nat): Server
      requires i < NUM_SERVERS
    {
      if i == 0 then server0 else if i == 1 then server1 else server2
    }

    /** The storage of all servers. */
    ghost function Footprint(): set<object>
      reads this, server0, server1, server2
    {
      server0.repr + server1.repr + server2.repr
    }

    ghost predicate Connected()
      reads this, server0, server1, server2, Footprint()
    {
      && server0.Valid() && server1.Valid() && server2.Valid()
      && server0.repr !! server1.repr !! server2.repr && this !in Footprint()
      && server0.chain.h == server1.chain.h == server2.chain.h == h
    }

    ghost predicate Valid()
      reads this, server0, server1, server2, Footprint()
    {
      && Connected() && current_server == |stores| % NUM_SERVERS
      && server0.payloads == Dealt(stores, 0)
      && server1.payloads == Dealt(stores, 1)
      && server2.payloads == Dealt(stores, 2)
    }

    constructor (h: string -> Digest)
      ensures Valid() && stores == [] && this.h == h
    {
      hide Server.Valid, Server.Recs;
      this.h := h;
      server0 := new Server(h);
      server1 := new Server(h);
      server2 := new Server(h);
      current_server := 0;
      stores := [];
    }

    /** send_command_to_server: only the addressed server changes. */
    method SendCommand(i: nat, message: string) returns (answer: Answer)
      requires Connected() && i < NUM_SERVERS && message != ""
      modifies Shard(i).repr
      ensures fresh(Footprint() - old(Footprint()))
      ensures Connected() && stores == old(stores) && current_server == old(current_server)
      ensures Shard(i).payloads == old(Shard(i).payloads) + if message == "RETRIEVE" then [] else [message]
      ensures message == "RETRIEVE" ==> SameButLinks(old(Shard(i).Recs()), Shard(i).Recs())
      ensures if message == "RETRIEVE" then AnswerFor(h, Shard(i).payloads, answer) else answer == DataStored
      ensures i != 0 ==> server0.payloads == old(server0.payloads) && server0.Recs() == old(server0.Recs())
      ensures i != 1 ==> server1.payloads == old(server1.payloads) && server1.Recs() == old(server1.Recs())
      ensures i != 2 ==> server2.payloads == old(server2.payloads) && server2.Recs() == old(server2.Recs())
    {
      hide Server.Valid, Server.Recs, SameButLinks, AnswerFor;
      if i == 0 {
        answer := server0.Handle(message);
      } else if i == 1 {
        answer := server1.Handle(message);
      } else {
        answer := server2.Handle(message);
      }
    }

    /** The RETRIEVE branch: every server in turn, and nothing stored changes. */
    method RetrieveFromAll() returns (answers: seq<Answer>)
      requires Valid()
      modifies Footprint()
      ensures fresh(Footprint() - old(Footprint()))
      ensures Valid() && stores == old(stores) && current_server == old(current_server)
      ensures AnswersFor(h, stores, answers)
      ensures SameButLinks(old(server0.Recs()), server0.Recs())
      ensures SameButLinks(old(server1.Recs()), server1.Recs())
      ensures SameButLinks(old(server2.Recs()), server2.Recs())
    {
      hide Server.Valid, Server.Recs, SameButLinks, Dealt, AnswerFor;
      answers := [];
      for i := 0 to NUM_SERVERS
        invariant fresh(Footprint() - old(Footprint()))
        invariant Valid() && stores == old(stores) && current_server == old(current_server)
        invariant |answers| == i
        invariant forall j :: 0 <= j < i ==> AnswerFor(h, Dealt(stores, j), answers[j])
        invariant
          if i > 0 then SameButLinks(old(server0.Recs()), server0.Recs())
          else server0.Recs() == old(server0.Recs())
        invariant
          if i > 1 then SameButLinks(old(server1.Recs()), server1.Recs())
          else server1.Recs() == old(server1.Recs())
        invariant
          if i > 2 then SameButLinks(old(server2.Recs()), server2.Recs())
          else server2.Recs() == old(server2.Recs())
      {
        var answer := SendCommand(i, "RETRIEVE");
        answers := answers + [answer];
      }
    }

    /** The storing branch: the next server in turn takes the payload. */
    method Distribute(payload: string) returns (answer: Answer)
      requires Valid() && payload != "" && payload != "RETRIEVE"
      modifies this, Footprint()
      ensures fresh(Footprint() - old(Footprint()))
      ensures Valid() && stores == old(stores) + [payload] && answer == DataStored
    {
      hide Server.Valid, Server.Recs, SameButLinks, Dealt;
      DealNext(stores, payload, 0);
      DealNext(stores, payload, 1);
      DealNext(stores, payload, 2);
      var server_index := current_server;
      current_server := (current_server + 1) % NUM_SERVERS;
      answer := SendCommand(server_index, payload);
      stores := stores + [payload];
    }

    /** One message that does not end the session. */
    method Answer(bytes: seq<char>) returns (reply: Reply)
      requires Valid() && !Ends(bytes) && CString(bytes) != ""
      modifies this, Footprint()
      ensures fresh(Footprint() - old(Footprint()))
      ensures Valid() && ReplyTo(h, old(stores), Parse(bytes), reply)
      ensures stores == old(stores) + match Parse(bytes) case Put(payload) => [payload] case _ => []
    {
      hide Server.Valid, Server.Recs, SameButLinks, Dealt, CString, AnswersFor;
      var request := Parse(bytes);
      if request.RetrieveAll? {
        var answers := RetrieveFromAll();
        return Listings(answers);
      }
      var answer := Distribute(request.payload);
      return Stored(answer);
    }

    /** handle_client: one session, up to its EXIT or its end, with its replies. What it
        stores are the C strings of the messages numbered `from`. */
    method HandleClient(session: seq<seq<char>>) returns (replies: seq<Reply>, ghost from: seq<nat>)
      requires Valid() && Deliverable(session)
      modifies this, Footprint()
      ensures fresh(Footprint() - old(Footprint()))
      ensures Valid() && stores == old(stores) + SessionStores(session)
      ensures SessionReplies(h, old(stores), session, replies)
      ensures |replies| < |session| ==> session[|replies|] == [] || CString(session[|replies|]) == "EXIT"
      ensures forall i :: 0 <= i < |replies| ==> session[i] != [] && CString(session[i]) != "EXIT"
      ensures forall i :: 0 <= i < |replies| ==>
        if CString(session[i]) == "RETRIEVE" then replies[i].Listings? else replies[i] == Stored(DataStored)
      ensures |stores| == |old(stores)| + |from| && old(stores) <= stores
      ensures forall j, k :: 0 <= j < k < |from| ==> from[j] < from[k]
      ensures forall j :: 0 <= j < |from| ==>
        from[j] < |replies| && stores[|old(stores)| + j] == CString(session[from[j]])
      ensures forall i :: 0 <= i < |replies| ==> (i in from <==> CString(session[i]) != "RETRIEVE")
    {
      hide Server.Valid, Server.Recs, SameButLinks, Dealt, CString, Parse, ReplyTo, Puts, Connected;
      var i := 0;
      replies := [];
      NoPuts(session);
      while i < |session|
        invariant 0 <= i <= Answered(session) && Valid() && fresh(Footprint() - old(Footprint()))
        invariant stores == old(stores) + Puts(session[..i]) && |replies| == i
        invariant forall j :: 0 <= j < i ==> ReplyTo(h, old(stores) + Puts(session[..j]), Parse(session[j]), replies[j])
        decreases |session| - i
      {
        if Ends(session[i]) { break; }
        PutsNext(session, i);
        EndsEmpty(session[i]);
        var reply := Answer(session[i]);
        replies := replies + [reply];
        i := i + 1;
      }
      from := SessionInBytes(session);
      RepliesInBytes(h, old(stores), session, replies);
    }

    /** Store number k is block k / 3 of server k mod 3: whole up to 255 characters, and
        otherwise its first 255. */
    lemma EveryStoreIsKept(k: nat)
      requires Valid() && k < |stores|
      ensures
        var recs := Shard(k % 3).Recs();
        && k / 3 < |recs|
        && if |stores[k]| <= 255 then recs[k / 3].data == stores[k]
           else |recs[k / 3].data| == 255 && recs[k / 3].data <= stores[k]
    {
      hide Server.Valid, Server.Recs, Dealt, StoreAll;
      var i, j := k % 3, k / 3;
      DealtExactly(stores, i);
      Shard(i).Holds(j);
    }

    /** Nothing else is stored: each server holds as many blocks as it was dealt. */
    lemma NothingElseIsKept(i: nat)
      requires Valid() && i < 3
      ensures |Shard(i).Recs()| == (|stores| + 2 - i) / 3
    {
      hide Server.Valid, Server.Recs, Dealt;
      DealtExactly(stores, i);
      Shard(i).HoldsAll();
    }

    /** Any number of sessions, one after another. */
    method Serve(sessions: seq<seq<seq<char>>>) returns (replies: seq<seq<Reply>>)
      requires Valid() && forall i :: 0 <= i < |sessions| ==> Deliverable(sessions[i])
      modifies this, Footprint()
      ensures fresh(Footprint() - old(Footprint()))
      ensures Valid() && stores == old(stores) + AllStores(sessions) && |replies| == |sessions|
      ensures forall i :: 0 <= i < |sessions| ==>
        SessionReplies(h, old(stores) + AllStores(sessions[..i]), sessions[i], replies[i])
      ensures forall i :: 0 <= i < |sessions| ==>
        && |replies[i]| <= |sessions[i]|
        && (|replies[i]| < |sessions[i]| ==>
              sessions[i][|replies[i]|] == [] || CString(sessions[i][|replies[i]|]) == "EXIT")
        && forall j :: 0 <= j < |replies[i]| ==>
             && sessions[i][j] != [] && CString(sessions[i][j]) != "EXIT"
             && (replies[i][j].Listings? <==> CString(sessions[i][j]) == "RETRIEVE")
    {
      hide Server.Valid, Server.Recs, SameButLinks, Dealt, CString, SessionStores, AllStores, SessionReplies, Connected;
      var i := 0;
      replies := [];
      NoSessions(sessions);
      while i < |sessions|
        invariant 0 <= i <= |sessions| && Valid() && fresh(Footprint() - old(Footprint()))
        invariant stores == old(stores) + AllStores(sessions[..i]) && |replies| == i
        invariant forall j :: 0 <= j < i ==>
          SessionReplies(h, old(stores) + AllStores(sessions[..j]), sessions[j], replies[j])
        decreases |sessions| - i
      {
        StoresNext(sessions, i);
        var reply, from := HandleClient(sessions[i]);
        replies := replies + [reply];
        i := i + 1;
      }
      forall i | 0 <= i < |sessions|
        ensures
          && |replies[i]| <= |sessions[i]|
          && (|replies[i]| < |sessions[i]| ==>
                sessions[i][|replies[i]|] == [] || CString(sessions[i][|replies[i]|]) == "EXIT")
          && forall j :: 0 <= j < |replies[i]| ==>
               && sessions[i][j] != [] && CString(sessions[i][j]) != "EXIT"
               && (replies[i][j].Listings? <==> CString(sessions[i][j]) == "RETRIEVE")
      {
        RepliesInBytes(h, old(stores) + AllStores(sessions[..i]), sessions[i], replies[i]);
      }
    }
  }

  lemma NoPuts(session: seq<seq<char>>)
    ensures Puts(session[..0]) == []
  {
  }

  lemma EndsEmpty(bytes: seq<char>)
    ensures |bytes| == 0 ==> Ends(bytes)
  {
  }

  lemma NoSessions(sessions: seq<seq<seq<char>>>)
    ensures AllStores(sessions[..0]) == [] && sessions[..|sessions|] == sessions
  {
  }
}
