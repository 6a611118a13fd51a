/** The calls in which the server may ask the client to put or get objects before it answers:
    rcDataObjRsync and rcExecMyRule. Each request is carried out, completed and answered by the
    next reply, which may be another request.
  */
module ServerRequests {
  import opened Transfer

  const SYS_SVR_TO_CLI_PUT_ACTION: int := 99999990
  const SYS_SVR_TO_CLI_GET_ACTION: int := 99999991
  const SYS_RSYNC_TARGET_MODIFIED: int := 99999992
  const SYS_SVR_TO_CLI_MSI_REQUEST: int := 99999995
  const SYS_SVR_TO_CLI_MSI_NO_EXIST: int := -45000
  const USER_INPUT_PATH_ERR: int := -317000
  const SYS_HEADER_READ_LEN_ERR: int := -4000
  const SYS_INVALID_FILE_PATH: int := -31000
  const USER_STRLEN_TOOLONG: int := -306000
  const MAX_NAME_LEN: nat := 1088

  /** The labelled parameters that are looked at: CL_ZONE_OPR_INX, CL_PUT_ACTION, CL_GET_ACTION. */
  datatype Params = Params(oprInx: Option<int>, put: Option<ObjInp>, get: Option<ObjInp>)

  datatype Reply = Reply(status: int, params: Option<Params>)

  /** What a read gives when the server has nothing more to say. */
  const LOST: Reply := Reply(SYS_HEADER_READ_LEN_ERR, None)

  function Next(script: seq<Reply>): Reply {
    if script == [] then LOST else script[0]
  }

  function Rest(script: seq<Reply>): seq<Reply> {
    if script == [] then [] else script[1..]
  }

  // ----- one request -----------------------------------------------------------------------

  /** The descriptor the server named, or else the outcome. */
  function Report(ps: Params, outcome: int): int {
    if ps.oprInx.Some? && ps.oprInx.value >= 0 then ps.oprInx.value else outcome
  }

  /** What one request makes the client do: a put, a get or nothing, and the code it completes. */
  datatype Action = Action(nested: seq<Event>, code: int)

  function RsyncAction(w: World, h: History, ps: Params): Action {
    if ps.put.Some? then
      var inp := ps.put.value;
      if inp.rsyncDestPath.None? then Action([], Report(ps, USER_FILE_DOES_NOT_EXIST))
      else var d := Put(w, h, inp, inp.rsyncDestPath.value); Action(d.events, Report(ps, d.status))
    else if ps.get.Some? then
      var inp := ps.get.value;
      if inp.rsyncDestPath.None? then Action([], Report(ps, USER_FILE_DOES_NOT_EXIST))
      else var d := Get(w, h, inp, inp.rsyncDestPath.value); Action(d.events, Report(ps, d.status))
    else Action([], Report(ps, SYS_SVR_TO_CLI_MSI_NO_EXIST))
  }

  /** splitPathByKey with '/': the file name behind the last slash. */
  function SplitPath(path: string): (int, string) {
    if path == "" then (0, "")
    else
      var i := LastSlash(path);
      if i < 0 then (SYS_INVALID_FILE_PATH, path)
      else if (if i > 1 then i else 1) >= MAX_NAME_LEN || |path| - i - 1 >= MAX_NAME_LEN then (USER_STRLEN_TOOLONG, "")
      else (0, path[i + 1..])
  }

  function LastSlash(path: string): (i: int)
    ensures -1 <= i < |path|
    ensures i >= 0 ==> path[i] == '/'
    ensures forall k :: i < k < |path| ==> path[k] != '/'
  {
    if path == "" then -1
    else if path[|path| - 1] == '/' then |path| - 1
    else LastSlash(path[..|path| - 1])
  }

  /** The file is what follows the last slash, unless it or the directory is too long. */
  lemma SplitPathIs(dir: string, file: string)
    requires '/' !in file
    ensures SplitPath(dir + "/" + file)
         == if |dir| >= 1088 || |file| >= 1088 then (-306000, "") else (0, file)
    ensures SplitPath(file).0 == if file == "" then 0 else -31000
    ensures SplitPath("") == (0, "")
  {
    var path := dir + "/" + file;
    assert path[|dir|] == '/';
    assert forall k :: |dir| < k < |path| ==> path[k] == file[k - |dir| - 1];
    assert LastSlash(path) == |dir|;
    assert path[|dir| + 1..] == file;
  }

  /** In rcExecMyRule the local path is given, or else it is the object's own file name. */
  function ExecAction(w: World, h: History, ps: Params): Action {
    if ps.put.None? && ps.get.None? then Action([], SYS_SVR_TO_CLI_MSI_NO_EXIST)
    else
      var inp := if ps.put.Some? then ps.put.value else ps.get.value;
      var (status, file) := SplitPath(inp.objPath);
      if inp.localPath.None? && status < 0 then Action([], USER_FILE_DOES_NOT_EXIST)
      else
        var path := if inp.localPath.Some? then inp.localPath.value else file;
        var d := if ps.put.Some? then Put(w, h, inp, path) else Get(w, h, inp, path);
        Action(d.events, d.status)
  }

  // ----- the loops --------------------------------------------------------------------------

  datatype Caller = Rsync | ExecMyRule

  /** rcDataObjRsync stops at a request without parameters; rcExecMyRule carries on, and finds
      no action in them. */
  predicate IsRequest(caller: Caller, r: Reply) {
    r.status == SYS_SVR_TO_CLI_MSI_REQUEST && (caller.Rsync? ==> r.params.Some?)
  }

  function Carried(caller: Caller, w: World, h: History, r: Reply): Action
    requires IsRequest(caller, r)
  {
    var ps := if r.params.Some? then r.params.value else Params(None, None, None);
    if caller.Rsync? then RsyncAction(w, h, ps) else ExecAction(w, h, ps)
  }

  /** A put or get or nothing, one completion, one reply. */
  function RoundOf(nested: seq<Event>, code: int, status: int): seq<Event> {
    nested + [Completed(code), ReadReply(status)]
  }

  /** The status that is returned and the events that are added, from reply `r` on. */
  function Loop(caller: Caller, w: World, h: History, r: Reply, script: seq<Reply>): Done
    decreases |script|, if IsRequest(caller, r) then 1 else 0
  {
    if !IsRequest(caller, r) then Done(r.status, [])
    else
      var next, action := Next(script), Carried(caller, w, h, r);
      var round := RoundOf(action.nested, action.code, next.status);
      var d := Loop(caller, w, h + round, next, Rest(script));
      Done(d.status, round + d.events)
  }

  /** How many requests the server makes before anything else. */
  function Requests(caller: Caller, r: Reply, script: seq<Reply>): nat
    decreases |script|, if IsRequest(caller, r) then 1 else 0
  {
    if !IsRequest(caller, r) then 0 else 1 + Requests(caller, Next(script), Rest(script))
  }

  /** Reply number `n`, where number 0 is the answer to the call itself. */
  function ReplyAt(r: Reply, script: seq<Reply>, n: nat): Reply
    decreases n
  {
    if n == 0 then r else ReplyAt(Next(script), Rest(script), n - 1)
  }

  /** The reply that ends the loop, and what the server still has to send then. */
  function Last(caller: Caller, r: Reply, script: seq<Reply>): Reply {
    ReplyAt(r, script, Requests(caller, r, script))
  }

  function Unread(caller: Caller, r: Reply, script: seq<Reply>): seq<Reply> {
    Dropped(script, Requests(caller, r, script))
  }

  function Dropped(script: seq<Reply>, n: nat): seq<Reply> {
    if n >= |script| then [] else script[n..]
  }

  /** One turn of the loop: the history it has reached, and that the whole is the same from there. */
  lemma LoopTurns(caller: Caller, w: World, h: History, r: Reply, script: seq<Reply>)
    requires IsRequest(caller, r)
    ensures var action, next := Carried(caller, w, h, r), Next(script);
            var h' := h + action.nested + [Completed(action.code)] + [ReadReply(next.status)];
            && Loop(caller, w, h, r, script).status == Loop(caller, w, h', next, Rest(script)).status
            && Last(caller, r, script) == Last(caller, next, Rest(script))
            && Unread(caller, r, script) == Unread(caller, next, Rest(script))
            && h + Loop(caller, w, h, r, script).events == h' + Loop(caller, w, h', next, Rest(script)).events
  {
    var action, next := Carried(caller, w, h, r), Next(script);
    var round := RoundOf(action.nested, action.code, next.status);
    Assembled(h, action.nested, action.code, next.status);
    Associative(h, round, Loop(caller, w, h + round, next, Rest(script)).events);
  }

  lemma Assembled(h: History, nested: seq<Event>, code: int, status: int)
    ensures h + nested + [Completed(code)] + [ReadReply(status)] == h + RoundOf(nested, code, status)
  {
  }

  lemma Associative(a: seq<Event>, b: seq<Event>, c: seq<Event>)
    ensures a + (b + c) == (a + b) + c
  {
  }

  /** A reply that makes rcDataObjRsync put or get at once. */
  predicate IsAction(r: Reply) {
    r.status == SYS_SVR_TO_CLI_PUT_ACTION || r.status == SYS_SVR_TO_CLI_GET_ACTION
  }

  /** rcDataObjRsync behind its own reply. */
  function RsyncCall(w: World, h: History, inp: ObjInp, r: Reply, script: seq<Reply>): Done {
    if IsAction(r) then
      if inp.rsyncDestPath.None? then Done(USER_INPUT_PATH_ERR, [])
      else
        var path := inp.rsyncDestPath.value;
        var d := if r.status == SYS_SVR_TO_CLI_PUT_ACTION then Put(w, h, inp, path) else Get(w, h, inp, path);
        if d.status >= 0 then d.(status := SYS_RSYNC_TARGET_MODIFIED) else d
    else Loop(Rsync, w, h, r, script)
  }

  /** Its input as the caller finds it afterwards: only a direct action changes it. */
  function RsyncLeaves(w: World, h: History, inp: ObjInp, r: Reply): ObjInp {
    if !IsAction(r) || inp.rsyncDestPath.None? then inp
    else if r.status == SYS_SVR_TO_CLI_PUT_ACTION then PutLeaves(w, h, inp, inp.rsyncDestPath.value)
    else GetLeaves(w, h, inp, inp.rsyncDestPath.value)
  }

  // ----- the protocol ------------------------------------------------------------------------

  ghost predicate OrderlyAction(nested: seq<Event>) {
    Orderly(nested, PutApi) || Orderly(nested, GetApi)
  }

  /** One round: an orderly put or get or nothing, one completion, one reply that is read. */
  datatype RoundRecord = RoundRecord(nested: seq<Event>, code: int, status: int)

  function Written(rounds: seq<RoundRecord>): seq<Event> {
    if rounds == [] then []
    else RoundOf(rounds[0].nested, rounds[0].code, rounds[0].status) + Written(rounds[1..])
  }

  /** What one request of rcDataObjRsync leads to: a put goes before a get, the descriptor the
      server named before the outcome. */
  ghost predicate RsyncRound(w: World, h: History, ps: Params, nested: seq<Event>, code: int) {
    var named := ps.oprInx.Some? && ps.oprInx.value >= 0;
    && (named ==> code == ps.oprInx.value)
    && (ps.put.Some? ==>
          match ps.put.value.rsyncDestPath
          case None => nested == [] && (!named ==> code == -310000)
          case Some(path) => var d := Put(w, h, ps.put.value, path); nested == d.events && (!named ==> code == d.status))
    && (ps.put.None? && ps.get.Some? ==>
          match ps.get.value.rsyncDestPath
          case None => nested == [] && (!named ==> code == -310000)
          case Some(path) => var d := Get(w, h, ps.get.value, path); nested == d.events && (!named ==> code == d.status))
    && (ps.put.None? && ps.get.None? ==> nested == [] && (!named ==> code == -45000))
  }

  /** What one request of rcExecMyRule leads to. Without a local path the file has the object's
      name; if there is no such name, nothing is transferred. */
  ghost predicate ExecRound(w: World, h: History, ps: Params, nested: seq<Event>, code: int) {
    && (ps.put.None? && ps.get.None? ==> nested == [] && code == -45000)
    && (ps.put.Some? || ps.get.Some? ==>
          var inp := if ps.put.Some? then ps.put.value else ps.get.value;
          var (split, file) := SplitPath(inp.objPath);
          var path := if inp.localPath.Some? then inp.localPath.value else file;
          if inp.localPath.None? && split < 0 then nested == [] && code == -310000
          else if ps.put.Some? then nested == Put(w, h, inp, path).events && code == Put(w, h, inp, path).status
          else nested == Get(w, h, inp, path).events && code == Get(w, h, inp, path).status)
  }

  ghost predicate IsAsked(caller: Caller, r: Reply) {
    r.status == 99999995 && (caller == Rsync ==> r.params.Some?)
  }

  ghost predicate RoundDoes(caller: Caller, w: World, h: History, request: Reply, nested: seq<Event>, code: int) {
    var ps := if request.params.Some? then request.params.value else Params(None, None, None);
    && IsAsked(caller, request)
    && if caller == Rsync then RsyncRound(w, h, ps, nested, code) else ExecRound(w, h, ps, nested, code)
  }

  /** Round `k` answers reply `k`, and behind it the next reply is read. */
  ghost predicate RoundsDo(caller: Caller, w: World, h: History, r: Reply, script: seq<Reply>, rounds: seq<RoundRecord>) {
    forall k {:trigger rounds[k]} :: 0 <= k < |rounds| ==>
      && RoundDoes(caller, w, h + Written(rounds[..k]), ReplyAt(r, script, k), rounds[k].nested, rounds[k].code)
      && rounds[k].status == ReplyAt(r, script, k + 1).status
  }

  lemma RoundsDoFirst(caller: Caller, w: World, h: History, r: Reply, script: seq<Reply>, first: RoundRecord, later: seq<RoundRecord>)
    requires RoundDoes(caller, w, h, r, first.nested, first.code) && first.status == Next(script).status
    requires RoundsDo(caller, w, h + RoundOf(first.nested, first.code, first.status), Next(script), Rest(script), later)
    ensures RoundsDo(caller, w, h, r, script, [first] + later)
  {
    var rounds, round := [first] + later, RoundOf(first.nested, first.code, first.status);
    forall k {:trigger rounds[k]} | 0 <= k < |rounds|
      ensures RoundDoes(caller, w, h + Written(rounds[..k]), ReplyAt(r, script, k), rounds[k].nested, rounds[k].code)
      ensures rounds[k].status == ReplyAt(r, script, k + 1).status
    {
      if k == 0 {
        assert h + Written(rounds[..0]) == h;
        assert ReplyAt(r, script, 1) == ReplyAt(Next(script), Rest(script), 0);
      } else {
        assert rounds[k] == later[k - 1];
        assert rounds[..k][1..] == later[..k - 1];
        Associative(h, round, Written(later[..k - 1]));
      }
    }
  }

  ghost predicate AllOrderly(rounds: seq<RoundRecord>) {
    forall k :: 0 <= k < |rounds| ==> OrderlyAction(rounds[k].nested)
  }

  lemma CarriedIsOrderly(caller: Caller, w: World, h: History, r: Reply)
    requires IsRequest(caller, r)
    ensures OrderlyAction(Carried(caller, w, h, r).nested)
    ensures RoundDoes(caller, w, h, r, Carried(caller, w, h, r).nested, Carried(caller, w, h, r).code)
  {
    var ps := if r.params.Some? then r.params.value else Params(None, None, None);
    if caller.Rsync? {
      RsyncIsOrderly(w, h, ps);
    } else {
      ExecIsOrderly(w, h, ps);
    }
  }

  lemma RsyncIsOrderly(w: World, h: History, ps: Params)
    ensures OrderlyAction(RsyncAction(w, h, ps).nested)
  {
    if ps.put.Some? && ps.put.value.rsyncDestPath.Some? {
      PutIsOrderly(w, h, ps.put.value, ps.put.value.rsyncDestPath.value);
    } else if ps.put.None? && ps.get.Some? && ps.get.value.rsyncDestPath.Some? {
      GetIsOrderly(w, h, ps.get.value, ps.get.value.rsyncDestPath.value);
    }
  }

  lemma ExecIsOrderly(w: World, h: History, ps: Params)
    ensures OrderlyAction(ExecAction(w, h, ps).nested)
  {
    if ps.put.Some? || ps.get.Some? {
      var inp := if ps.put.Some? then ps.put.value else ps.get.value;
      var path := if inp.localPath.Some? then inp.localPath.value else SplitPath(inp.objPath).1;
      PutIsOrderly(w, h, inp, path);
      GetIsOrderly(w, h, inp, path);
    }
  }

  /** For every script the loop is as many rounds as there are requests, and what is returned is
      the status of the reply that ended it. */
  lemma {:induction false} LoopIsRounds(caller: Caller, w: World, h: History, r: Reply, script: seq<Reply>)
    returns (rounds: seq<RoundRecord>)
    ensures Loop(caller, w, h, r, script).events == Written(rounds)
    ensures AllOrderly(rounds) && |rounds| == Requests(caller, r, script)
    ensures RoundsDo(caller, w, h, r, script, rounds)
    ensures Loop(caller, w, h, r, script).status == ReplyAt(r, script, |rounds|).status
    decreases |script|, if IsRequest(caller, r) then 1 else 0
  {
    rounds := [];
    if IsRequest(caller, r) {
      var next, action := Next(script), Carried(caller, w, h, r);
      var later := LoopIsRounds(caller, w, h + RoundOf(action.nested, action.code, next.status), next, Rest(script));
      CarriedIsOrderly(caller, w, h, r);
      var first := RoundRecord(action.nested, action.code, next.status);
      RoundsDoFirst(caller, w, h, r, script, first, later);
      rounds := [first] + later;
      assert rounds[1..] == later;
    }
  }

  lemma ActionCounts(nested: seq<Event>)
    requires OrderlyAction(nested)
    ensures Completions(nested) <= 1 && Reads(nested) == 0
  {
    if Orderly(nested, PutApi) {
      OrderlyCounts(nested, PutApi);
    } else {
      OrderlyCounts(nested, GetApi);
    }
  }

  lemma RoundCounts(nested: seq<Event>, code: int, status: int)
    requires OrderlyAction(nested)
    ensures var round := RoundOf(nested, code, status); Reads(round) == 1 && 1 <= Completions(round) <= 2
  {
    var end := [Completed(code), ReadReply(status)];
    ActionCounts(nested);
    CountsOfConcat(nested, end);
    var one := [Completed(code)];
    assert one[..0] == [] && end[..1] == one;
    assert Completions(one) == 1 && Reads(one) == 0;
    assert Completions(end) == 1 && Reads(end) == 1;
  }

  /** In n rounds n replies are read, and between n and 2n completions are sent. */
  lemma {:induction false} RoundsCount(rounds: seq<RoundRecord>)
    requires AllOrderly(rounds)
    ensures Reads(Written(rounds)) == |rounds| <= Completions(Written(rounds)) <= 2 * |rounds|
  {
    if rounds != [] {
      RoundsCount(rounds[1..]);
      RoundCounts(rounds[0].nested, rounds[0].code, rounds[0].status);
      CountsOfConcat(RoundOf(rounds[0].nested, rounds[0].code, rounds[0].status), Written(rounds[1..]));
    }
  }

  /** Every reply that is read is read directly behind a completion. */
  ghost predicate Alternates(events: seq<Event>) {
    forall i :: 0 <= i < |events| && events[i].ReadReply? ==> i > 0 && events[i - 1].Completed?
  }

  lemma AlternatesConcat(nested: seq<Event>, code: int, status: int, rest: seq<Event>)
    requires OrderlyAction(nested) && Alternates(rest)
    ensures Alternates(RoundOf(nested, code, status) + rest)
  {
    var events, k := RoundOf(nested, code, status) + rest, |nested|;
    forall i | 0 <= i < |events| && events[i].ReadReply?
      ensures i > 0 && events[i - 1].Completed?
    {
      if i > k + 1 {
        assert events[i] == rest[i - k - 2];
        assert i > k + 2 ==> events[i - 1] == rest[i - k - 3];
      }
    }
  }

  lemma {:induction false} RoundsAlternate(rounds: seq<RoundRecord>)
    requires AllOrderly(rounds)
    ensures Alternates(Written(rounds))
  {
    if rounds != [] {
      RoundsAlternate(rounds[1..]);
      AlternatesConcat(rounds[0].nested, rounds[0].code, rounds[0].status, Written(rounds[1..]));
    }
  }

  /** The protocol of a loop from reply `r` on, the first `n` replies being requests: `n` rounds
      that each do what their request asks for; as many replies are read as there were requests,
      each behind a completion; the completions are between one and two for each request; and the
      status of the reply that ends the loop is returned. */
  ghost predicate LoopProtocol(caller: Caller, w: World, h: History, r: Reply, script: seq<Reply>, d: Done) {
    var n := Requests(caller, r, script);
    && (exists rounds :: |rounds| == n && d.events == Written(rounds) && AllOrderly(rounds)
                         && RoundsDo(caller, w, h, r, script, rounds))
    && Reads(d.events) == n <= Completions(d.events) <= 2 * n
    && Alternates(d.events)
    && d.status == Last(caller, r, script).status
    && !IsAsked(caller, Last(caller, r, script))
  }

  /** It is kept for every finite script and however the nested calls go. */
  lemma LoopKeepsProtocol(caller: Caller, w: World, h: History, r: Reply, script: seq<Reply>)
    ensures LoopProtocol(caller, w, h, r, script, Loop(caller, w, h, r, script))
  {
    var rounds := LoopIsRounds(caller, w, h, r, script);
    RoundsCount(rounds);
    RoundsAlternate(rounds);
    RequestsEnd(caller, r, script);
  }

  lemma {:induction false} RequestsEnd(caller: Caller, r: Reply, script: seq<Reply>)
    ensures !IsRequest(caller, ReplyAt(r, script, Requests(caller, r, script)))
    decreases |script|, if IsRequest(caller, r) then 1 else 0
  {
    if IsRequest(caller, r) {
      RequestsEnd(caller, Next(script), Rest(script));
    }
  }

  /** The same for rcDataObjRsync with its direct actions: a put or a get of the caller's input,
      which reads no further reply, sends at most one completion and turns any success into
      SYS_RSYNC_TARGET_MODIFIED. */
  ghost predicate RsyncProtocol(w: World, h: History, inp: ObjInp, r: Reply, script: seq<Reply>, d: Done, left: ObjInp) {
    if r.status == 99999990 || r.status == 99999991 then
      match inp.rsyncDestPath
      case None => d == Done(-317000, []) && left == inp
      case Some(path) =>
        var puts := r.status == 99999990;
        var called := if puts then Put(w, h, inp, path) else Get(w, h, inp, path);
        && d == Done(if called.status >= 0 then 99999992 else called.status, called.events)
        && left == (if puts then PutLeaves(w, h, inp, path) else GetLeaves(w, h, inp, path))
        && Orderly(d.events, if puts then PutApi else GetApi)
        && Alternates(d.events) && Reads(d.events) == 0 && Completions(d.events) <= 1
    else left == inp && LoopProtocol(Rsync, w, h, r, script, d)
  }

  lemma RsyncKeepsProtocol(w: World, h: History, inp: ObjInp, r: Reply, script: seq<Reply>)
    ensures RsyncProtocol(w, h, inp, r, script, RsyncCall(w, h, inp, r, script), RsyncLeaves(w, h, inp, r))
  {
    if IsAction(r) {
      if inp.rsyncDestPath.Some? {
        PutIsOrderly(w, h, inp, inp.rsyncDestPath.value);
        GetIsOrderly(w, h, inp, inp.rsyncDestPath.value);
        ActionCounts(RsyncCall(w, h, inp, r, script).events);
      }
    } else {
      LoopKeepsProtocol(Rsync, w, h, r, script);
    }
  }
}
