/** The client's side of the protocol as the program runs it: calls on a connection that change
    the connection step by step (src/api/rcDataObjPut.cpp, rcDataObjGet.cpp, rcDataObjRsync.cpp
    and rcExecMyRule.cpp).
  */
module Connection {
  import opened Transfer
  import opened ServerRequests

  lemma AddedTo(h: History, events: seq<Event>)
    ensures (h + events)[|h|..] == events
  {
  }

  class RcComm {
    const world: World
    /** The replies the server still has to send, and what happened so far. */
    var script: seq<Reply>
    var history: History
    /** transStat.numThreads */
    var transThreads: int

    constructor (world: World, script: seq<Reply>)
      ensures this.world == world && this.script == script && history == []
    {
      this.world, this.script, history, transThreads := world, script, [], 0;
    }

    method RcOprComplete(code: int) returns (status: int)
      modifies this`history
      ensures history == old(history) + [Completed(code)] && status == world.completeStatus(old(history), code)
    {
      status := world.completeStatus(history, code);
      history := history + [Completed(code)];
    }

    method Move(route: Route) returns (status: int)
      modifies this`history
      ensures status == world.transfer(old(history), route) && history == old(history) + [Moved(route, status)]
    {
      status := world.transfer(history, route);
      history := history + [Moved(route, status)];
    }

    /** A transfer and the completion message behind it. */
    method MoveAndComplete(route: Route, l1descInx: int) returns (status: int)
      modifies this`history
      ensures var d := Finish(world, old(history), route, l1descInx);
              status == d.status && history == old(history) + d.events
    {
      status := Move(route);
      if status < 0 {
        var _ := RcOprComplete(status);
      } else {
        status := RcOprComplete(l1descInx);
      }
    }

    /** `dataObjInp` is the caller's input, as it was given and as it is handed back. */
    method RcDataObjPut(inp: ObjInp, path: string) returns (status: int, dataObjInp: ObjInp)
      modifies this`history, this`transThreads
      ensures var d := Put(world, old(history), inp, path);
              status == d.status && history == old(history) + d.events
      ensures dataObjInp == PutLeaves(world, old(history), inp, path)
      ensures PutDoes(world, old(history), inp, path, Done(status, history[|old(history)|..]), dataObjInp)
      ensures transThreads == PutThreads(world, old(history), inp, path, old(transThreads))
    {
      PutDoesThis(world, history, inp, path);
      AddedTo(history, Put(world, history, inp, path).events);
      dataObjInp := inp;
      assert history + [] == history;
      if dataObjInp.dataSize <= 0 {
        dataObjInp := dataObjInp.(dataSize := world.fileSize(history, path));
        if dataObjInp.dataSize < 0 {
          return USER_FILE_DOES_NOT_EXIST, dataObjInp;
        }
      }
      transThreads := 0;
      status := world.envStatus(history);
      if status != 0 {
        return;
      }
      if dataObjInp.dataIncluded {
        if dataObjInp.dataSize > world.maxBuffer {
          dataObjInp := dataObjInp.(dataIncluded := false);
        } else {
          status := world.fill(history, path);
          if status < 0 {
            return;
          }
        }
      } else if dataObjInp.dataSize <= world.maxBuffer {
        dataObjInp := dataObjInp.(dataIncluded := true);
        status := world.fill(history, path);
        if status < 0 {
          return;
        }
      }
      dataObjInp := dataObjInp.(oprType := PUT_OPR);
      var reply := world.putReply(history, dataObjInp);
      history := history + [Asked(PutApi)];
      status := if reply.portal.l1descInx < 0 then reply.portal.l1descInx else reply.status;
      if status < 0 || dataObjInp.dataIncluded {
        return;
      }
      Associative(old(history), [Asked(PutApi)], PutTransfer(world, history, reply.portal).events);
      status := PutByPortal(reply.portal);
    }

    /** The part of a put behind its reply. */
    method PutByPortal(portal: PortalOut) returns (status: int)
      modifies this`history, this`transThreads
      ensures var d := PutTransfer(world, old(history), portal);
              status == d.status && history == old(history) + d.events
      ensures transThreads == PutPortalThreads(world, old(history), portal, old(transThreads))
    {
      assert history + [] == history;
      if portal.numThreads <= 0 {
        status := MoveAndComplete(Stream, portal.l1descInx);
      } else if portal.udp {
        if portal.numThreads != 1 {
          var _ := RcOprComplete(SYS_INVALID_PORTAL_OPR);
          return SYS_INVALID_PORTAL_OPR;
        }
        transThreads := portal.numThreads;
        if world.ssl {
          return SYS_INVALID_PORTAL_OPR;
        }
        status := MoveAndComplete(Rbudp, portal.l1descInx);
      } else {
        status := world.envStatus(history);
        if status != 0 {
          return;
        }
        if portal.numThreads >= 20 * world.threads {
          var _ := RcOprComplete(SYS_INVALID_PORTAL_OPR);
          return SYS_INVALID_PORTAL_OPR;
        }
        transThreads := portal.numThreads;
        status := MoveAndComplete(Portal, portal.l1descInx);
      }
    }

    method RcDataObjGet(inp: ObjInp, path: string) returns (status: int, dataObjInp: ObjInp)
      modifies this`history, this`transThreads
      ensures var d := Get(world, old(history), inp, path);
              status == d.status && history == old(history) + d.events
      ensures dataObjInp == GetLeaves(world, old(history), inp, path)
      ensures GetDoes(world, old(history), inp, path, Done(status, history[|old(history)|..]), dataObjInp)
      ensures transThreads == GetThreads(world, old(history), inp, path, old(transThreads))
    {
      GetDoesThis(world, history, inp, path);
      AddedTo(history, Get(world, history, inp, path).events);
      dataObjInp := inp;
      assert history + [] == history;
      if path == STDOUT_FILE_NAME {
        dataObjInp := dataObjInp.(numThreads := NO_THREADING);
      } else if world.fileExists(history, path) {
        if !dataObjInp.force {
          return OVERWRITE_WITHOUT_FORCE_FLAG, dataObjInp;
        }
      }
      transThreads := 0;
      dataObjInp := dataObjInp.(oprType := GET_OPR);
      var reply := world.getReply(history, dataObjInp);
      ghost var before, asked := history, [Asked(GetApi)];
      history := history + [Asked(GetApi)];
      var portal := reply.portal;
      status := if portal.Some? && portal.value.l1descInx < 0 then portal.value.l1descInx else reply.status;
      if status < 0 {
        return;
      }
      if status == 0 || reply.len > 0 {
        Associative(before, asked, GetIncluded(world, history, inp, path, portal).events);
        status := Move(Buffer);
      } else if portal.None? {
        return SYS_INVALID_PORTAL_OPR, dataObjInp;
      } else {
        var early;
        Associative(before, asked, GetTransfer(world, history, inp, path, portal.value).events);
        status, early := GetByPortal(portal.value);
        if early {
          return;
        }
      }
      if dataObjInp.verifyChksum && portal.Some? && portal.value.hasChksum {
        status := world.verify(history, path);
      }
    }

    /** The transfers of a get; `early` says that the call returns without verifying. */
    method GetByPortal(portal: PortalOut) returns (status: int, early: bool)
      modifies this`history, this`transThreads
      ensures history == old(history) + GetMove(world, old(history), portal).0.events
      ensures (status, early) == (GetMove(world, old(history), portal).0.status, GetMove(world, old(history), portal).1)
      ensures transThreads == GetPortalThreads(world, portal, old(transThreads))
    {
      assert history + [] == history;
      early := true;
      if portal.udp {
        if portal.numThreads != 1 {
          var _ := RcOprComplete(SYS_INVALID_PORTAL_OPR);
          return SYS_INVALID_PORTAL_OPR, true;
        }
        transThreads := portal.numThreads;
        if world.ssl {
          return SYS_INVALID_PORTAL_OPR, true;
        }
        status := MoveAndComplete(Rbudp, portal.l1descInx);
      } else if portal.numThreads <= 0 {
        status := MoveAndComplete(Stream, portal.l1descInx);
      } else {
        if portal.numThreads >= 20 * world.threads {
          var _ := RcOprComplete(SYS_INVALID_PORTAL_OPR);
          return SYS_INVALID_PORTAL_OPR, true;
        }
        transThreads := portal.numThreads;
        status := MoveAndComplete(Portal, portal.l1descInx);
      }
      early := false;
    }

    method ReadAndProcApiReply() returns (r: Reply)
      modifies this`history, this`script
      ensures r == Next(old(script)) && script == Rest(old(script))
      ensures history == old(history) + [ReadReply(r.status)]
    {
      r := Next(script);
      script := Rest(script);
      history := history + [ReadReply(r.status)];
    }

    /** rcDataObjRsync: a direct put or get, or the loop over server requests. */
    method RcDataObjRsync(inp: ObjInp) returns (status: int, dataObjInp: ObjInp)
      modifies this
      ensures var r, h := Next(old(script)), old(history) + [Asked(RsyncApi)];
              var d := RsyncCall(world, h, inp, r, Rest(old(script)));
              && status == d.status && history == h + d.events
              && RsyncProtocol(world, h, inp, r, Rest(old(script)), Done(status, history[|h|..]), dataObjInp)
      ensures var r, rest := Next(old(script)), Rest(old(script));
              script == if r.status == 99999990 || r.status == 99999991 then rest else Unread(Rsync, r, rest)
    {
      dataObjInp := inp;
      var reply := Next(script);
      script := Rest(script);
      history := history + [Asked(RsyncApi)];
      assert history + [] == history;
      RsyncKeepsProtocol(world, history, inp, reply, script);
      AddedTo(history, RsyncCall(world, history, inp, reply, script).events);
      status := reply.status;
      if status == SYS_SVR_TO_CLI_PUT_ACTION {
        if inp.rsyncDestPath.None? {
          return USER_INPUT_PATH_ERR, dataObjInp;
        }
        status, dataObjInp := RcDataObjPut(inp, inp.rsyncDestPath.value);
        return if status >= 0 then SYS_RSYNC_TARGET_MODIFIED else status, dataObjInp;
      } else if status == SYS_SVR_TO_CLI_GET_ACTION {
        if inp.rsyncDestPath.None? {
          return USER_INPUT_PATH_ERR, dataObjInp;
        }
        status, dataObjInp := RcDataObjGet(inp, inp.rsyncDestPath.value);
        return if status >= 0 then SYS_RSYNC_TARGET_MODIFIED else status, dataObjInp;
      }
      ghost var h, whole := history, Loop(Rsync, world, history, reply, script);
      ghost var last, unread := Last(Rsync, reply, script), Unread(Rsync, reply, script);
      while status == SYS_SVR_TO_CLI_MSI_REQUEST && reply.params.Some?
        invariant status == reply.status
        invariant whole.status == Loop(Rsync, world, history, reply, script).status
        invariant last == Last(Rsync, reply, script) && unread == Unread(Rsync, reply, script)
        invariant h + whole.events == history + Loop(Rsync, world, history, reply, script).events
        decreases |script|, if IsRequest(Rsync, reply) then 1 else 0
      {
        LoopTurns(Rsync, world, history, reply, script);
        CarryOutForRsync(reply.params.value);
        reply := ReadAndProcApiReply();
        status := reply.status;
      }
    }

    /** What rcDataObjRsync does with one request. */
    method CarryOutForRsync(ps: Params)
      modifies this`history, this`transThreads
      ensures var action := RsyncAction(world, old(history), ps);
              history == old(history) + action.nested + [Completed(action.code)]
    {
      assert history + [] == history;
      var l1descInx := if ps.oprInx.Some? then ps.oprInx.value else -1;
      if ps.put.Some? {
        var request := ps.put.value;
        if request.rsyncDestPath.None? {
          var _ := RcOprComplete(if l1descInx >= 0 then l1descInx else USER_FILE_DOES_NOT_EXIST);
        } else {
          var status, _ := RcDataObjPut(request, request.rsyncDestPath.value);
          var _ := RcOprComplete(if l1descInx >= 0 then l1descInx else status);
        }
      } else if ps.get.Some? {
        var request := ps.get.value;
        if request.rsyncDestPath.None? {
          var _ := RcOprComplete(if l1descInx >= 0 then l1descInx else USER_FILE_DOES_NOT_EXIST);
        } else {
          var status, _ := RcDataObjGet(request, request.rsyncDestPath.value);
          var _ := RcOprComplete(if l1descInx >= 0 then l1descInx else status);
        }
      } else {
        var _ := RcOprComplete(if l1descInx >= 0 then l1descInx else SYS_SVR_TO_CLI_MSI_NO_EXIST);
      }
    }

    /** rcExecMyRule: the loop over server requests, whose parameters may be missing. The
        parameters of the last reply are handed back. */
    method RcExecMyRule() returns (status: int, outParamArray: Option<Params>)
      modifies this
      ensures var r, h := Next(old(script)), old(history) + [Asked(ExecMyRuleApi)];
              var d := Loop(ExecMyRule, world, h, r, Rest(old(script)));
              && status == d.status && history == h + d.events
              && LoopProtocol(ExecMyRule, world, h, r, Rest(old(script)), Done(status, history[|h|..]))
      ensures var r, rest := Next(old(script)), Rest(old(script));
              && outParamArray == Last(ExecMyRule, r, rest).params
              && script == Unread(ExecMyRule, r, rest)
    {
      var reply := Next(script);
      script := Rest(script);
      history := history + [Asked(ExecMyRuleApi)];
      status, outParamArray := reply.status, reply.params;
      LoopKeepsProtocol(ExecMyRule, world, history, reply, script);
      AddedTo(history, Loop(ExecMyRule, world, history, reply, script).events);
      ghost var h, whole := history, Loop(ExecMyRule, world, history, reply, script);
      ghost var last, unread := Last(ExecMyRule, reply, script), Unread(ExecMyRule, reply, script);
      while status == SYS_SVR_TO_CLI_MSI_REQUEST
        invariant status == reply.status && outParamArray == reply.params
        invariant whole.status == Loop(ExecMyRule, world, history, reply, script).status
        invariant last == Last(ExecMyRule, reply, script) && unread == Unread(ExecMyRule, reply, script)
        invariant h + whole.events == history + Loop(ExecMyRule, world, history, reply, script).events
        decreases |script|, if IsRequest(ExecMyRule, reply) then 1 else 0
      {
        var ps := if outParamArray.Some? then outParamArray.value else Params(None, None, None);
        LoopTurns(ExecMyRule, world, history, reply, script);
        CarryOutForExecMyRule(ps);
        reply := ReadAndProcApiReply();
        status, outParamArray := reply.status, reply.params;
      }
    }

    /** What rcExecMyRule does with one request. */
    method CarryOutForExecMyRule(ps: Params)
      modifies this`history, this`transThreads
      ensures var action := ExecAction(world, old(history), ps);
              history == old(history) + action.nested + [Completed(action.code)]
    {
      assert history + [] == history;
      if ps.put.Some? || ps.get.Some? {
        var request := if ps.put.Some? then ps.put.value else ps.get.value;
        var path: Option<string> := request.localPath;
        if path.None? {
          var split := SplitPath(request.objPath);
          path := if split.0 >= 0 then Some(split.1) else None;
        }
        if path.Some? {
          var status, left;
          if ps.put.Some? {
            status, left := RcDataObjPut(request, path.value);
          } else {
            status, left := RcDataObjGet(request, path.value);
          }
          var _ := RcOprComplete(status);
        } else {
          var _ := RcOprComplete(USER_FILE_DOES_NOT_EXIST);
        }
      } else {
        var _ := RcOprComplete(SYS_SVR_TO_CLI_MSI_NO_EXIST);
      }
    }
  }
}
