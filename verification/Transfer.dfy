/** Putting and getting a data object (src/api/rcDataObjPut.cpp, src/api/rcDataObjGet.cpp): the
    request, at most one data transfer and at most one completion message.

    The server, the local files and the transfer routines are not part of this model. They are
    arbitrary functions of everything that happened on the connection so far.
  */
module Transfer {

  const SYS_INVALID_PORTAL_OPR: int := -33000
  const USER_FILE_DOES_NOT_EXIST: int := -310000
  const OVERWRITE_WITHOUT_FORCE_FLAG: int := -312000
  const NO_THREADING: int := -1
  const PUT_OPR: int := 1
  const GET_OPR: int := 2
  const STDOUT_FILE_NAME: string := "-"

  datatype Api = PutApi | GetApi | RsyncApi | ExecMyRuleApi

  /** Included data, one stream, the portal's threads, or RBUDP. */
  datatype Route = Buffer | Stream | Portal | Rbudp

  /** What happens on a connection: requests, data transfers with their status, completion
      messages (rcOprComplete) and later replies read (branchReadAndProcApiReply). */
  datatype Event =
    | Asked(api: Api)
    | Moved(route: Route, status: int)
    | Completed(code: int)
    | ReadReply(status: int)

  type History = seq<Event>

  datatype Option<T> = None | Some(value: T)

  /** portalOprOut_t */
  datatype PortalOut = PortalOut(l1descInx: int, numThreads: int, udp: bool, hasChksum: bool)

  /** A put is refused, or accepted with a portal description. */
  datatype PutReply = PutReply(status: int, portal: PortalOut)
  datatype GetReply = GetReply(status: int, portal: Option<PortalOut>, len: nat)

  /** The keywords of condInput that are looked at, and the fields. */
  datatype ObjInp = ObjInp(objPath: string, dataSize: int, numThreads: int, oprType: int, dataIncluded: bool,
                           force: bool, verifyChksum: bool, localPath: Option<string>, rsyncDestPath: Option<string>)

  datatype World = World(
    fileSize: (History, string) -> int,
    fileExists: (History, string) -> bool,
    envStatus: History -> int,
    maxBuffer: int,
    threads: int,
    fill: (History, string) -> int,
    putReply: (History, ObjInp) -> PutReply,
    getReply: (History, ObjInp) -> GetReply,
    transfer: (History, Route) -> int,
    completeStatus: (History, int) -> int,
    verify: (History, string) -> int,
    ssl: bool)

  /** What a call returns and adds to the history. */
  datatype Done = Done(status: int, events: seq<Event>) {
    function Behind(front: seq<Event>): Done {
      Done(status, front + events)
    }
  }

  /** The end of a transfer that takes place: its failure, or the descriptor it used, is reported. */
  function Finish(w: World, h: History, route: Route, l1descInx: int): Done {
    var moved := [Moved(route, w.transfer(h, route))];
    if moved[0].status < 0 then Done(moved[0].status, moved + [Completed(moved[0].status)])
    else Done(w.completeStatus(h + moved, l1descInx), moved + [Completed(l1descInx)])
  }

  const COMPLAINT: Done := Done(SYS_INVALID_PORTAL_OPR, [Completed(SYS_INVALID_PORTAL_OPR)])

  // ----- put ---------------------------------------------------------------------------------

  function Sized(w: World, h: History, inp: ObjInp, path: string): ObjInp {
    if inp.dataSize <= 0 then inp.(dataSize := w.fileSize(h, path)) else inp
  }

  /** The input as it is sent: the size is filled in and DATA_INCLUDED_KW set or removed. */
  function Prepared(w: World, h: History, inp: ObjInp, path: string): ObjInp {
    var sized := Sized(w, h, inp, path);
    sized.(dataIncluded := sized.dataSize <= w.maxBuffer, oprType := PUT_OPR)
  }

  /** The input as its caller finds it afterwards. */
  function PutLeaves(w: World, h: History, inp: ObjInp, path: string): ObjInp {
    var sized, sent := Sized(w, h, inp, path), Prepared(w, h, inp, path);
    if sized.dataSize < 0 || w.envStatus(h) != 0 then sized
    else if sent.dataIncluded && w.fill(h, path) < 0 then sent.(oprType := inp.oprType)
    else sent
  }

  /** The server takes the data by itself, on the descriptor it names. */
  predicate PutAccepted(w: World, h: History, inp: ObjInp, path: string) {
    var sent := Prepared(w, h, inp, path);
    var reply := w.putReply(h, sent);
    sent.dataSize >= 0 && w.envStatus(h) == 0 && !sent.dataIncluded && reply.portal.l1descInx >= 0 && reply.status >= 0
  }

  function PutPortal(w: World, h: History, inp: ObjInp, path: string): PortalOut {
    w.putReply(h, Prepared(w, h, inp, path)).portal
  }

  /** transStat.numThreads behind the transfers of a put, when it was `before`. */
  function PutPortalThreads(w: World, h: History, p: PortalOut, before: int): int {
    if p.numThreads <= 0 then before
    else if p.udp then (if p.numThreads == 1 then 1 else before)
    else if w.envStatus(h) != 0 || p.numThreads >= 20 * w.threads then before
    else p.numThreads
  }

  function PutThreads(w: World, h: History, inp: ObjInp, path: string, before: int): int {
    if Sized(w, h, inp, path).dataSize < 0 then before
    else if !PutAccepted(w, h, inp, path) then 0
    else PutPortalThreads(w, h + [Asked(PutApi)], PutPortal(w, h, inp, path), 0)
  }

  function PutTransfer(w: World, h: History, p: PortalOut): Done {
    if p.numThreads <= 0 then Finish(w, h, Stream, p.l1descInx)
    else if p.udp then
      if p.numThreads != 1 then COMPLAINT
      else if w.ssl then Done(SYS_INVALID_PORTAL_OPR, [])
      else Finish(w, h, Rbudp, p.l1descInx)
    else if w.envStatus(h) != 0 then Done(w.envStatus(h), [])
    else if p.numThreads >= 20 * w.threads then COMPLAINT
    else Finish(w, h, Portal, p.l1descInx)
  }

  function Put(w: World, h: History, inp: ObjInp, path: string): Done {
    var sent := Prepared(w, h, inp, path);
    if sent.dataSize < 0 then Done(USER_FILE_DOES_NOT_EXIST, [])
    else if w.envStatus(h) != 0 then Done(w.envStatus(h), [])
    else if sent.dataIncluded && w.fill(h, path) < 0 then Done(w.fill(h, path), [])
    else
      var asked := [Asked(PutApi)];
      var reply := w.putReply(h, sent);
      var status := if reply.portal.l1descInx < 0 then reply.portal.l1descInx else reply.status;
      if status < 0 || sent.dataIncluded then Done(status, asked)
      else PutTransfer(w, h + asked, reply.portal).Behind(asked)
  }

  // ----- get ---------------------------------------------------------------------------------

  function Sent(inp: ObjInp, path: string): ObjInp {
    (if path == STDOUT_FILE_NAME then inp.(numThreads := NO_THREADING) else inp).(oprType := GET_OPR)
  }

  /** An existing local file is not overwritten without being told to. */
  predicate Refused(w: World, h: History, inp: ObjInp, path: string) {
    path != STDOUT_FILE_NAME && w.fileExists(h, path) && !inp.force
  }

  /** The input as its caller finds it afterwards. */
  function GetLeaves(w: World, h: History, inp: ObjInp, path: string): ObjInp {
    if Refused(w, h, inp, path) then inp else Sent(inp, path)
  }

  /** The server sends the data by itself, on the descriptor it names. */
  predicate GetAccepted(w: World, h: History, inp: ObjInp, path: string) {
    var reply := w.getReply(h, Sent(inp, path));
    !Refused(w, h, inp, path) && reply.portal.Some? && reply.portal.value.l1descInx >= 0 && reply.status > 0 && reply.len == 0
  }

  /** transStat.numThreads behind the transfers of a get, when it was `before`. */
  function GetPortalThreads(w: World, p: PortalOut, before: int): int {
    if p.udp then (if p.numThreads == 1 then 1 else before)
    else if p.numThreads <= 0 || p.numThreads >= 20 * w.threads then before
    else p.numThreads
  }

  function GetThreads(w: World, h: History, inp: ObjInp, path: string, before: int): int {
    if Refused(w, h, inp, path) then before
    else if !GetAccepted(w, h, inp, path) then 0
    else GetPortalThreads(w, w.getReply(h, Sent(inp, path)).portal.value, 0)
  }

  predicate MustVerify(inp: ObjInp, portal: Option<PortalOut>) {
    inp.verifyChksum && portal.Some? && portal.value.hasChksum
  }

  /** Checksum verification replaces whatever status the transfer had. */
  function Verified(w: World, h: History, inp: ObjInp, path: string, portal: Option<PortalOut>, d: Done): Done {
    if MustVerify(inp, portal) then d.(status := w.verify(h + d.events, path)) else d
  }

  /** The transfers of a get, and whether the call returns at once, without verifying. */
  function GetMove(w: World, h: History, p: PortalOut): (Done, bool) {
    if p.udp then
      if p.numThreads != 1 then (COMPLAINT, true)
      else if w.ssl then (Done(SYS_INVALID_PORTAL_OPR, []), true)
      else (Finish(w, h, Rbudp, p.l1descInx), false)
    else if p.numThreads <= 0 then (Finish(w, h, Stream, p.l1descInx), false)
    else if p.numThreads >= 20 * w.threads then (COMPLAINT, true)
    else (Finish(w, h, Portal, p.l1descInx), false)
  }

  function GetTransfer(w: World, h: History, inp: ObjInp, path: string, p: PortalOut): Done {
    var (d, early) := GetMove(w, h, p);
    if early then d else Verified(w, h, inp, path, Some(p), d)
  }

  function GetIncluded(w: World, h: History, inp: ObjInp, path: string, portal: Option<PortalOut>): Done {
    var status := w.transfer(h, Buffer);
    Verified(w, h, inp, path, portal, Done(status, [Moved(Buffer, status)]))
  }

  function Get(w: World, h: History, inp: ObjInp, path: string): Done {
    if Refused(w, h, inp, path) then Done(OVERWRITE_WITHOUT_FORCE_FLAG, [])
    else
      var asked := [Asked(GetApi)];
      var reply := w.getReply(h, Sent(inp, path));
      var status := if reply.portal.Some? && reply.portal.value.l1descInx < 0 then reply.portal.value.l1descInx
                    else reply.status;
      if status < 0 then Done(status, asked)
      else if status == 0 || reply.len > 0 then
        GetIncluded(w, h + asked, inp, path, reply.portal).Behind(asked)
      else if reply.portal.None? then Done(SYS_INVALID_PORTAL_OPR, asked)
      else GetTransfer(w, h + asked, inp, path, reply.portal.value).Behind(asked)
  }

  // ----- what both keep ------------------------------------------------------------------------

  function Completions(events: seq<Event>): nat {
    if events == [] then 0
    else Completions(events[..|events| - 1]) + (if events[|events| - 1].Completed? then 1 else 0)
  }

  function Reads(events: seq<Event>): nat {
    if events == [] then 0
    else Reads(events[..|events| - 1]) + (if events[|events| - 1].ReadReply? then 1 else 0)
  }

  /** The shapes a put or a get can have: nothing; a request; a request that is complained about;
      a request and included data; or a request, one transfer, and one completion that reports
      the transfer's failure or a descriptor. */
  ghost predicate Orderly(events: seq<Event>, api: Api) {
    || events == []
    || events == [Asked(api)]
    || events == [Asked(api), Completed(SYS_INVALID_PORTAL_OPR)]
    || (|events| == 2 && events[0] == Asked(api) && events[1].Moved? && events[1].route == Buffer)
    || (&& |events| == 3 && events[0] == Asked(api)
        && events[1].Moved? && events[1].route != Buffer
        && events[2].Completed?
        && (if events[1].status < 0 then events[2].code == events[1].status else events[2].code >= 0))
  }

  /** The shapes behind the request. */
  ghost predicate OrderlyMove(events: seq<Event>) {
    || events == []
    || events == [Completed(SYS_INVALID_PORTAL_OPR)]
    || (&& |events| == 2 && events[0].Moved? && events[0].route != Buffer && events[1].Completed?
        && (if events[0].status < 0 then events[1].code == events[0].status else events[1].code >= 0))
  }

  lemma OrderlyBehind(events: seq<Event>, api: Api)
    requires OrderlyMove(events)
    ensures Orderly([Asked(api)] + events, api)
  {
    if events == [] {
      assert [Asked(api)] + events == [Asked(api)];
    }
  }

  lemma PutIsOrderly(w: World, h: History, inp: ObjInp, path: string)
    ensures Orderly(Put(w, h, inp, path).events, PutApi)
  {
    var portal := w.putReply(h, Prepared(w, h, inp, path)).portal;
    if portal.l1descInx >= 0 {
      OrderlyBehind(PutTransfer(w, h + [Asked(PutApi)], portal).events, PutApi);
    }
  }

  lemma GetMoveIsOrderly(w: World, h: History, p: PortalOut)
    requires p.l1descInx >= 0
    ensures OrderlyMove(GetMove(w, h, p).0.events)
  {
  }

  lemma GetIsOrderly(w: World, h: History, inp: ObjInp, path: string)
    ensures Orderly(Get(w, h, inp, path).events, GetApi)
  {
    var portal, h' := w.getReply(h, Sent(inp, path)).portal, h + [Asked(GetApi)];
    if portal.Some? && portal.value.l1descInx >= 0 {
      GetMoveIsOrderly(w, h', portal.value);
      assert GetTransfer(w, h', inp, path, portal.value).events == GetMove(w, h', portal.value).0.events;
      OrderlyBehind(GetTransfer(w, h', inp, path, portal.value).events, GetApi);
    }
    assert |GetIncluded(w, h', inp, path, portal).events| == 1;
  }

  // ----- what exactly each does ---------------------------------------------------------------

  /** The request, one transfer, and the completion of its failure or of the descriptor. */
  ghost predicate CarriedOut(w: World, h: History, api: Api, route: Route, l1descInx: int, events: seq<Event>) {
    var status := w.transfer(h + [Asked(api)], route);
    events == [Asked(api), Moved(route, status), Completed(if status < 0 then status else l1descInx)]
  }

  /** The failure of the transfer, or the server's answer to the completion. */
  ghost predicate Answers(w: World, h: History, d: Done) {
    && |d.events| == 3 && d.events[1].Moved? && d.events[2].Completed?
    && d.status == if d.events[1].status < 0 then d.events[1].status
                   else w.completeStatus(h + d.events[..2], d.events[2].code)
  }

  /** How the data of an accepted put moves to the server. */
  ghost predicate PutMoves(w: World, h: History, p: PortalOut, d: Done) {
    var env := w.envStatus(h + [Asked(PutApi)]);
    if p.numThreads <= 0 || (if p.udp then p.numThreads == 1 && !w.ssl else env == 0 && p.numThreads < 20 * w.threads) then
      var route := if p.numThreads <= 0 then Stream else if p.udp then Rbudp else Portal;
      CarriedOut(w, h, PutApi, route, p.l1descInx, d.events) && Answers(w, h, d)
    else
      && (d.events == [Asked(PutApi)] || d.events == [Asked(PutApi), Completed(-33000)])
      && d.status == (if !p.udp && env != 0 then env else -33000)
  }

  lemma PutMovesThis(w: World, h: History, p: PortalOut)
    ensures var asked := [Asked(PutApi)]; PutMoves(w, h, p, PutTransfer(w, h + asked, p).Behind(asked))
  {
    var asked := [Asked(PutApi)];
    var d := PutTransfer(w, h + asked, p).Behind(asked);
    if |d.events| == 3 {
      assert h + d.events[..2] == (h + asked) + [d.events[1]];
    }
  }

  /** What a put does and leaves in its input: when it sends a request and which one, when data
      moves behind it and how, what it completes and what it returns. */
  ghost predicate PutDoes(w: World, h: History, inp: ObjInp, path: string, d: Done, left: ObjInp) {
    var size := if inp.dataSize > 0 then inp.dataSize else w.fileSize(h, path);
    var sent := inp.(dataSize := size, dataIncluded := size <= w.maxBuffer, oprType := 1);
    var reply := w.putReply(h, sent);
    var p := reply.portal;
    var accepted := reply.status >= 0 && p.l1descInx >= 0 && size > w.maxBuffer;
    && (d.events == [] <==> size < 0 || w.envStatus(h) != 0 || (size <= w.maxBuffer && w.fill(h, path) < 0))
    && (d.events == [] ==>
          && d.status == (if size < 0 then -310000 else if w.envStatus(h) != 0 then w.envStatus(h) else w.fill(h, path))
          && left == inp.(dataSize := size,
                          dataIncluded := inp.dataIncluded || (size >= 0 && w.envStatus(h) == 0)))
    && (d.events != [] ==> d.events[0] == Asked(PutApi) && left == sent)
    && (d.events != [] && !accepted ==>
          d.events == [Asked(PutApi)] && d.status == if p.l1descInx < 0 then p.l1descInx else reply.status)
    && (d.events != [] && accepted ==> PutMoves(w, h, p, d))
  }

  lemma PutDoesThis(w: World, h: History, inp: ObjInp, path: string)
    ensures PutDoes(w, h, inp, path, Put(w, h, inp, path), PutLeaves(w, h, inp, path))
  {
    PutMovesThis(w, h, PutPortal(w, h, inp, path));
  }

  /** How a portal's data moves to the client. */
  ghost predicate GetMoves(w: World, h: History, path: string, p: PortalOut, verified: bool, d: Done) {
    if if p.udp then p.numThreads == 1 && !w.ssl else p.numThreads < 20 * w.threads || p.numThreads <= 0 then
      var route := if p.udp then Rbudp else if p.numThreads <= 0 then Stream else Portal;
      && CarriedOut(w, h, GetApi, route, p.l1descInx, d.events)
      && (if verified then d.status == w.verify(h + d.events, path) else Answers(w, h, d))
    else
      && (d.events == [Asked(GetApi)] || d.events == [Asked(GetApi), Completed(-33000)])
      && d.status == -33000
  }

  lemma GetMovesThis(w: World, h: History, inp: ObjInp, path: string, p: PortalOut)
    ensures var asked := [Asked(GetApi)];
            GetMoves(w, h, path, p, MustVerify(inp, Some(p)), GetTransfer(w, h + asked, inp, path, p).Behind(asked))
  {
    var asked := [Asked(GetApi)];
    var d := GetTransfer(w, h + asked, inp, path, p).Behind(asked);
    assert h + d.events == (h + asked) + d.events[1..];
    if |d.events| == 3 {
      assert h + d.events[..2] == (h + asked) + [d.events[1]];
    }
  }

  /** The same for a get. A checksum that is asked for and sent decides what is returned. */
  ghost predicate GetDoes(w: World, h: History, inp: ObjInp, path: string, d: Done, left: ObjInp) {
    var sent := inp.(numThreads := if path == "-" then -1 else inp.numThreads, oprType := 2);
    var reply := w.getReply(h, sent);
    var refused := path != "-" && w.fileExists(h, path) && !inp.force;
    var status := if reply.portal.Some? && reply.portal.value.l1descInx < 0 then reply.portal.value.l1descInx
                  else reply.status;
    var verified := inp.verifyChksum && reply.portal.Some? && reply.portal.value.hasChksum;
    && (d.events == [] <==> refused)
    && (refused ==> d.status == -312000 && left == inp)
    && (!refused ==> d.events[0] == Asked(GetApi) && left == sent)
    && (!refused && status < 0 ==> d == Done(status, [Asked(GetApi)]))
    && (!refused && (status == 0 || (status > 0 && reply.len > 0)) ==>
          && |d.events| == 2 && d.events[1] == Moved(Buffer, w.transfer(h + [Asked(GetApi)], Buffer))
          && d.status == if verified then w.verify(h + d.events, path) else d.events[1].status)
    && (!refused && status > 0 && reply.len == 0 ==>
          if reply.portal.None? then d == Done(-33000, [Asked(GetApi)])
          else GetMoves(w, h, path, reply.portal.value, verified, d))
  }

  lemma GetDoesThis(w: World, h: History, inp: ObjInp, path: string)
    ensures GetDoes(w, h, inp, path, Get(w, h, inp, path), GetLeaves(w, h, inp, path))
  {
    var d, reply := Get(w, h, inp, path), w.getReply(h, Sent(inp, path));
    if |d.events| == 2 && d.events[1].Moved? {
      var asked := [Asked(GetApi)];
      assert h + d.events == (h + asked) + [d.events[1]];
    }
    if reply.portal.Some? {
      GetMovesThis(w, h, inp, path, reply.portal.value);
    }
  }

  lemma CountsOfConcat(a: seq<Event>, b: seq<Event>)
    ensures Completions(a + b) == Completions(a) + Completions(b)
    ensures Reads(a + b) == Reads(a) + Reads(b)
    decreases |b|
  {
    if b == [] {
      assert a + b == a;
    } else {
      assert (a + b)[..|a + b| - 1] == a + b[..|b| - 1];
      CountsOfConcat(a, b[..|b| - 1]);
    }
  }

  /** So a put or a get sends at most one completion, and exactly one if it used a transfer
      other than the data included in the reply; and it reads no reply of the outer call. */
  lemma OrderlyCounts(events: seq<Event>, api: Api)
    requires Orderly(events, api)
    ensures Completions(events) <= 1 && Reads(events) == 0
    ensures (exists k :: 0 <= k < |events| && events[k].Moved? && events[k].route != Buffer) ==> Completions(events) == 1
  {
    if |events| == 1 {
      assert events[..0] == [];
    } else if |events| == 2 {
      assert events[..1][..0] == [];
    } else if |events| == 3 {
      assert events[..2][..1] == events[..1] && events[..1][..0] == [];
    }
  }

  /** An accepted put sends exactly one completion, unless the server wants RBUDP on an encrypted
      connection, or the environment cannot be read again; then the server gets none. Any other
      put sends none. */
  lemma PutCompletes(w: World, h: History, inp: ObjInp, path: string)
    ensures var p := PutPortal(w, h, inp, path);
            var silent := p.numThreads > 0 && (if p.udp then p.numThreads == 1 && w.ssl
                                               else w.envStatus(h + [Asked(PutApi)]) != 0);
            Completions(Put(w, h, inp, path).events) == if PutAccepted(w, h, inp, path) && !silent then 1 else 0
  {
    CompletionsByHand(Put(w, h, inp, path).events);
  }

  /** The same for a get, which does not look at the environment's status. */
  lemma GetCompletes(w: World, h: History, inp: ObjInp, path: string)
    ensures Completions(Get(w, h, inp, path).events) ==
              if !GetAccepted(w, h, inp, path) then 0
              else
                var p := w.getReply(h, Sent(inp, path)).portal.value;
                if p.udp && p.numThreads == 1 && w.ssl then 0 else 1
  {
    CompletionsByHand(Get(w, h, inp, path).events);
  }

  lemma CompletionsByHand(events: seq<Event>)
    requires |events| <= 3
    ensures Completions(events) ==
      (if |events| > 0 && events[0].Completed? then 1 else 0) + (if |events| > 1 && events[1].Completed? then 1 else 0)
      + (if |events| > 2 && events[2].Completed? then 1 else 0)
  {
    if |events| == 3 {
      assert events[..2][..1] == events[..1] && events[..1][..0] == [];
    } else if |events| == 2 {
      assert events[..1][..0] == [];
    } else if |events| == 1 {
      assert events[..0] == [];
    }
  }

  ghost predicate MovesInParallel(events: seq<Event>) {
    exists k :: 0 <= k < |events| && events[k].Moved? && (events[k].route == Portal || events[k].route == Rbudp)
  }

  /** A call that gives up before it clears the count leaves it alone. After one that got as far as
      its request, the connection shows threads exactly if the data went through a portal or RBUDP,
      or RBUDP was refused because of encryption; and then it shows the portal's. */
  lemma PutThreadsTell(w: World, h: History, inp: ObjInp, path: string, before: int)
    ensures Put(w, h, inp, path).events == [] ==>
      PutThreads(w, h, inp, path, before) == if inp.dataSize <= 0 && w.fileSize(h, path) < 0 then before else 0
    ensures Put(w, h, inp, path).events != [] ==>
            var n, p := PutThreads(w, h, inp, path, before), PutPortal(w, h, inp, path);
            && (n != 0 <==> MovesInParallel(Put(w, h, inp, path).events)
                            || (PutAccepted(w, h, inp, path) && p.udp && p.numThreads == 1 && w.ssl))
            && (n != 0 ==> n == p.numThreads > 0)
  {
    var d := Put(w, h, inp, path);
    if |d.events| == 3 {
      assert d.events[1].Moved?;
    }
  }

  lemma GetThreadsTell(w: World, h: History, inp: ObjInp, path: string, before: int)
    ensures Get(w, h, inp, path).events == [] ==> GetThreads(w, h, inp, path, before) == before
    ensures Get(w, h, inp, path).events != [] ==>
            var n, portal := GetThreads(w, h, inp, path, before), w.getReply(h, Sent(inp, path)).portal;
            && (n != 0 <==> MovesInParallel(Get(w, h, inp, path).events)
                            || (GetAccepted(w, h, inp, path) && portal.value.udp && portal.value.numThreads == 1 && w.ssl))
            && (n != 0 ==> portal.Some? && n == portal.value.numThreads > 0)
  {
    var d := Get(w, h, inp, path);
    if |d.events| == 3 {
      assert d.events[1].Moved?;
    }
  }

  /** A put with the input that an earlier put left sends what that put sent, or would have sent,
      whatever has happened since, unless the file was empty or missing. */
  lemma RetrySendsTheSame(w: World, h: History, inp: ObjInp, path: string, later: History, path': string)
    ensures var left := PutLeaves(w, h, inp, path);
            left.dataSize > 0 ==> Prepared(w, later, left, path') == Prepared(w, h, inp, path)
  {
  }

  /** A put that failed to transfer says so. */
  lemma PutReportsFailure(w: World, h: History, inp: ObjInp, path: string, k: nat)
    requires k < |Put(w, h, inp, path).events| && Put(w, h, inp, path).events[k].Moved?
    requires Put(w, h, inp, path).events[k].status < 0
    ensures Put(w, h, inp, path).status == Put(w, h, inp, path).events[k].status
  {
  }

  /** A get that failed to transfer says so except in one case: a checksum was asked for and
      sent, and the local file verifies. */
  lemma GetHidesFailure(w: World, h: History, inp: ObjInp, path: string, k: nat)
    requires k < |Get(w, h, inp, path).events| && Get(w, h, inp, path).events[k].Moved?
    requires Get(w, h, inp, path).events[k].status < 0
    ensures var d := Get(w, h, inp, path);
            d.status >= 0 <==>
              MustVerify(inp, w.getReply(h, Sent(inp, path)).portal) && w.verify(h + d.events, path) >= 0
  {
    var asked, d := [Asked(GetApi)], Get(w, h, inp, path);
    assert h + d.events == (h + asked) + d.events[1..];
    assert d.events == asked + d.events[1..];
  }

  // ----- what can go wrong -----------------------------------------------------------------------

  /** A server that always gives these replies, and transfers that always fail. */
  function Failing(put: PutReply, get: GetReply, ssl: bool): World {
    World((h, path) => 1, (h, path) => false, h => 0, 0, 4, (h, path) => 0, (h, inp) => put, (h, inp) => get,
          (h, route) => -1, (h, code) => 0, (h, path) => 0, ssl)
  }

  /** A failure is hidden: the stream fails, its failure is completed, and the get returns 0. */
  lemma FailedGetMaySucceed(inp: ObjInp, path: string)
    requires inp.verifyChksum
    ensures var w := Failing(PutReply(0, PortalOut(3, 0, false, true)), GetReply(1, Some(PortalOut(3, 0, false, true)), 0), false);
            Get(w, [], inp, path) == Done(0, [Asked(GetApi), Moved(Stream, -1), Completed(-1)])
  {
    var p := PortalOut(3, 0, false, true);
    var w, h := Failing(PutReply(0, p), GetReply(1, Some(p), 0), false), [Asked(GetApi)];
    assert [] + h == h;
    assert GetTransfer(w, h, inp, path, p) == Done(0, [Moved(Stream, -1), Completed(-1)]);
  }

  /** A server that accepted a put on descriptor 3 hears nothing more of it. */
  lemma AcceptedPutMayEndSilently(inp: ObjInp, path: string)
    requires inp.dataSize > 0
    ensures var w := Failing(PutReply(0, PortalOut(3, 1, true, false)), GetReply(0, None, 0), true);
            && PutAccepted(w, [], inp, path)
            && Put(w, [], inp, path) == Done(SYS_INVALID_PORTAL_OPR, [Asked(PutApi)])
  {
    var h: History := [Asked(PutApi)];
    assert [] + h == h && h + [] == h;
  }
}
