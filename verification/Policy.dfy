/** Calls that are enforced by policy rules: a pre phase, the operation, a post phase and an
    except phase, each running the rules of all namespaces (include/core/irods_plugin_base.hpp
    and include/core/apiHandler.hpp, built with ENABLE_RE).

    The rule engine and the operations are not part of this model. They are arbitrary functions
    of everything that happened so far, so that they may behave differently at every call.
  */
module Policy {

  datatype Error = Error(ok: bool, code: int, result: string)

  const SUCCESS: Error := Error(true, 0, "")
  const SYS_INVALID_INPUT_PARAM: int := -130000
  const INVALID_ANY_CAST: int := -1822000
  const SYS_NO_HANDLER_REPLY_MSG: int := -99999999

  datatype Class = Pre | Post | Except

  function ClassName(c: Class): string {
    match c
    case Pre => "pre"
    case Post => "post"
    case Except => "except"
  }

  /** What happens, in order: rules and at most one operation. A rule sees the results string of
      its context and leaves another one to the next rule, and it reads and writes the out
      parameter. */
  datatype Event =
    | Rule(class_: Class, name: string, seen: string, before: string, err: Error, leaves: string, after: string)
    | Operation(results: string, err: Error, left: string)

  type History = seq<Event>

  datatype Engine = Engine(
    namespaces: seq<string>,
    /** RuleExistsHelper::checkOperation */
    check: (History, string) -> bool,
    /** rule_exists: whether it succeeded, and its out parameter given the value it came with */
    exists_: (History, string, bool) -> (bool, bool),
    /** exec_rule, given context results and out parameter: the error and their new values */
    exec: (History, string, string, string) -> (Error, string, string),
    /** the operation, given its context's results: the error and the results it leaves */
    operation: (History, string) -> (Error, string))

  function RuleName(ns: string, operation: string, c: Class): string {
    ns + "pep_" + operation + "_" + ClassName(c)
  }

  lemma RuleNames(ns: string, operation: string)
    ensures RuleName(ns, operation, Pre) == ns + "pep_" + operation + "_pre"
    ensures RuleName(ns, operation, Post) == ns + "pep_" + operation + "_post"
    ensures RuleName(ns, operation, Except) == ns + "pep_" + operation + "_except"
  {
    assert "_" + "pre" == "_pre" && "_" + "post" == "_post" && "_" + "except" == "_except";
    var front := ns + "pep_" + operation;
    assert front + "_" + "pre" == front + ("_" + "pre");
    assert front + "_" + "post" == front + ("_" + "post");
    assert front + "_" + "except" == front + ("_" + "except");
  }

  // ----- one phase ------------------------------------------------------------------------

  /** The locals of invoke_policy_enforcement_point: `found` and `saved` live across namespaces,
      `results` is the by-value copy of the context, `out` is behind the caller's pointer. */
  datatype Phase = Phase(found: bool, saved: Error, results: string, out: string, history: History)

  function Started(results: string, out: string, history: History): Phase {
    Phase(false, SUCCESS, results, out, history)
  }

  /** Whether the namespace's rule is run, and what rule_exists leaves in `found`. */
  function Match(e: Engine, operation: string, c: Class, ns: string, s: Phase): (bool, bool) {
    var name := RuleName(ns, operation, c);
    if !e.check(s.history, name) then (false, s.found)
    else
      var (ok, found) := e.exists_(s.history, name, s.found);
      (ok && found, found)
  }

  function RunRule(e: Engine, operation: string, c: Class, ns: string, s: Phase): Phase {
    var name := RuleName(ns, operation, c);
    var (matches, found) := Match(e, operation, c, ns, s);
    if !matches then s.(found := found)
    else
      var (err, results, out) := e.exec(s.history, name, s.results, s.out);
      Phase(found, if err.ok then s.saved else err, results, out,
            s.history + [Rule(c, name, s.results, s.out, err, results, out)])
  }

  function RunRules(e: Engine, operation: string, c: Class, nss: seq<string>, s: Phase): Phase
    decreases |nss|
  {
    if nss == [] then s else RunRules(e, operation, c, nss[1..], RunRule(e, operation, c, nss[0], s))
  }

  /** The error a list of events amounts to: its last failure, or the given one. */
  function LastFailure(events: seq<Event>, otherwise: Error): Error
    decreases |events|
  {
    if events == [] then otherwise
    else
      var last := events[|events| - 1];
      if !last.err.ok then last.err else LastFailure(events[..|events| - 1], otherwise)
  }

  /** Event `k` failed, and none behind it did. */
  ghost predicate FailedLast(events: seq<Event>, k: int) {
    0 <= k < |events| && !events[k].err.ok && forall j :: k < j < |events| ==> events[j].err.ok
  }

  lemma {:induction false} LastFailureIs(events: seq<Event>, otherwise: Error) returns (k: int)
    ensures k == -1 ==> LastFailure(events, otherwise) == otherwise && forall j :: 0 <= j < |events| ==> events[j].err.ok
    ensures k != -1 ==> FailedLast(events, k) && LastFailure(events, otherwise) == events[k].err
    decreases |events|
  {
    k := -1;
    if events != [] {
      k := |events| - 1;
      if events[k].err.ok {
        k := LastFailureIs(events[..k], otherwise);
      }
    }
  }

  /** Every rule's error, results and out parameter are what the engine gave when it was run. */
  ghost predicate Answered(e: Engine, before: History, events: seq<Event>) {
    forall k :: 0 <= k < |events| ==>
      events[k].Rule? && (events[k].err, events[k].leaves, events[k].after)
                         == e.exec(before + events[..k], events[k].name, events[k].seen, events[k].before)
  }

  lemma AnsweredFirst(e: Engine, before: History, event: Event, rest: seq<Event>)
    requires event.Rule? && (event.err, event.leaves, event.after) == e.exec(before, event.name, event.seen, event.before)
    requires Answered(e, before + [event], rest)
    ensures Answered(e, before, [event] + rest)
  {
    var events := [event] + rest;
    forall k | 0 <= k < |events|
      ensures events[k].Rule? && (events[k].err, events[k].leaves, events[k].after)
                                 == e.exec(before + events[..k], events[k].name, events[k].seen, events[k].before)
    {
      if k == 0 {
        assert before + events[..0] == before;
      } else {
        assert before + events[..k] == (before + [event]) + rest[..k - 1];
        assert events[k] == rest[k - 1];
      }
    }
  }

  predicate InClass(events: seq<Event>, c: Class) {
    forall k :: 0 <= k < |events| ==> events[k].Rule? && events[k].class_ == c
  }

  /** Each rule reads what the one before it wrote and sees the results it left; the first reads
      `out` and sees `results`, the last writes `end`. */
  predicate Chained(events: seq<Event>, results: string, out: string, end: string)
    decreases |events|
  {
    if events == [] then out == end
    else
      && events[0].Rule? && events[0].seen == results && events[0].before == out
      && Chained(events[1..], events[0].leaves, events[0].after, end)
  }

  /** The events of a phase: rules of its class, chained through the out parameter, of which the
      last failure is reported. */
  lemma {:induction false} PhaseReports(e: Engine, operation: string, c: Class, nss: seq<string>, s: Phase)
    returns (events: seq<Event>)
    ensures var r := RunRules(e, operation, c, nss, s);
            && r.history == s.history + events
            && InClass(events, c)
            && Chained(events, s.results, s.out, r.out)
            && Answered(e, s.history, events)
            && r.saved == LastFailure(events, s.saved)
    decreases |nss|
  {
    events := [];
    if nss != [] {
      var next := RunRule(e, operation, c, nss[0], s);
      var rest := PhaseReports(e, operation, c, nss[1..], next);
      if Match(e, operation, c, nss[0], s).0 {
        var event := next.history[|s.history|];
        assert s.history + ([event] + rest) == (s.history + [event]) + rest;
        events := [event] + rest;
        AnsweredFirst(e, s.history, event, rest);
        LastFailureOfCons(event, rest, s.saved);
      } else {
        events := rest;
      }
    }
  }

  lemma {:induction false} LastFailureOfCons(event: Event, rest: seq<Event>, otherwise: Error)
    ensures LastFailure([event] + rest, otherwise)
         == LastFailure(rest, if event.err.ok then otherwise else event.err)
    decreases |rest|
  {
    if rest != [] {
      assert ([event] + rest)[..|rest|] == [event] + rest[..|rest| - 1];
      LastFailureOfCons(event, rest[..|rest| - 1], otherwise);
    } else {
      assert ([event] + rest)[..0] == [];
    }
  }

  lemma RuleRan(e: Engine, operation: string, c: Class, ns: string, s: Phase) returns (event: Event)
    requires Match(e, operation, c, ns, s).0
    ensures event.Rule? && event.name == RuleName(ns, operation, c)
    ensures RunRule(e, operation, c, ns, s).history == s.history + [event]
  {
    event := RunRule(e, operation, c, ns, s).history[|s.history|];
  }

  lemma TurnAppended(ran: seq<nat>, n: nat)
    requires forall j, k :: 0 <= j < k < |ran| ==> ran[j] < ran[k]
    requires forall k :: 0 <= k < |ran| ==> ran[k] < n
    ensures forall j, k :: 0 <= j < k < |ran + [n]| ==> (ran + [n])[j] < (ran + [n])[k]
    ensures forall i :: i in ran + [n] <==> i in ran || i == n
  {
  }

  /** The rules that ran are those of the namespaces `ran`, in that order: exactly the namespaces
      whose rule matches when its turn comes, each once. */
  ghost predicate RanInOrder(e: Engine, operation: string, c: Class, nss: seq<string>, s: Phase,
                             ran: seq<nat>, events: seq<Event>)
  {
    && (forall j, k :: 0 <= j < k < |ran| ==> ran[j] < ran[k])
    && (forall k :: 0 <= k < |ran| ==> ran[k] < |nss|)
    && (forall i :: 0 <= i < |nss| ==> (i in ran <==> MatchesAt(e, operation, c, nss, i, s)))
    && |events| == |ran|
    && (forall k :: 0 <= k < |ran| ==> events[k].Rule? && events[k].name == RuleName(nss[ran[k]], operation, c))
  }

  /** When its turn comes, the rule passes the check and is found to exist. */
  predicate MatchesAt(e: Engine, operation: string, c: Class, nss: seq<string>, i: nat, s: Phase)
    requires i < |nss|
  {
    var turn, name := RunRules(e, operation, c, nss[..i], s), RuleName(nss[i], operation, c);
    e.check(turn.history, name) && e.exists_(turn.history, name, turn.found) == (true, true)
  }

  /** What `rule_exists` is handed is its own last answer, false at first. */
  lemma AnswerIsKept(e: Engine, operation: string, c: Class, nss: seq<string>, i: nat, s: Phase)
    requires i < |nss|
    ensures var turn, name := RunRules(e, operation, c, nss[..i], s), RuleName(nss[i], operation, c);
            RunRules(e, operation, c, nss[..i + 1], s).found
            == if e.check(turn.history, name) then e.exists_(turn.history, name, turn.found).1 else turn.found
    ensures RunRules(e, operation, c, nss[..0], s) == s
  {
    assert nss[..i + 1] == nss[..i] + [nss[i]];
    RunRulesSnoc(e, operation, c, nss[..i], nss[i], s);
  }

  lemma MatchesInFront(e: Engine, operation: string, c: Class, nss: seq<string>, n: nat, s: Phase)
    requires n <= |nss|
    ensures forall i :: 0 <= i < n ==> MatchesAt(e, operation, c, nss[..n], i, s) == MatchesAt(e, operation, c, nss, i, s)
  {
    forall i | 0 <= i < n
      ensures MatchesAt(e, operation, c, nss[..n], i, s) == MatchesAt(e, operation, c, nss, i, s)
    {
      assert nss[..n][..i] == nss[..i];
    }
  }

  /** Every phase runs its matching rules, once and in namespace order, and no others. */
  lemma {:induction false} MatchesRunOnceInOrder(e: Engine, operation: string, c: Class, nss: seq<string>, s: Phase)
    returns (ran: seq<nat>, events: seq<Event>)
    ensures RunRules(e, operation, c, nss, s).history == s.history + events
    ensures RanInOrder(e, operation, c, nss, s, ran, events)
    decreases |nss|
  {
    ran, events := [], [];
    if nss != [] {
      var n := |nss| - 1;
      ran, events := MatchesRunOnceInOrder(e, operation, c, nss[..n], s);
      assert nss == nss[..n] + [nss[n]];
      RunRulesSnoc(e, operation, c, nss[..n], nss[n], s);
      MatchesInFront(e, operation, c, nss, n, s);
      if MatchesAt(e, operation, c, nss, n, s) {
        var event := RuleRan(e, operation, c, nss[n], RunRules(e, operation, c, nss[..n], s));
        TurnAppended(ran, n);
        assert s.history + (events + [event]) == (s.history + events) + [event];
        ran, events := ran + [n], events + [event];
      }
    }
  }

  lemma {:induction false} RunRulesSnoc(e: Engine, operation: string, c: Class, nss: seq<string>, ns: string, s: Phase)
    ensures RunRules(e, operation, c, nss + [ns], s)
         == RunRule(e, operation, c, ns, RunRules(e, operation, c, nss, s))
    decreases |nss|
  {
    if nss == [] {
      assert (nss + [ns])[1..] == [];
    } else {
      assert (nss + [ns])[1..] == nss[1..] + [ns];
      RunRulesSnoc(e, operation, c, nss[1..], ns, RunRule(e, operation, c, nss[0], s));
    }
  }

  /** invoke_policy_enforcement_point. The context arrives by value. */
  method InvokePolicyEnforcementPoint(e: Engine, results: string, out: string, operation: string, c: Class, history: History)
    returns (err: Error, out': string, history': History)
    ensures var r := RunRules(e, operation, c, e.namespaces, Started(results, out, history));
            err == r.saved && out' == r.out && history' == r.history
  {
    var found, copy := false, results;
    err, out', history' := SUCCESS, out, history;
    assert e.namespaces[0..] == e.namespaces;
    for i := 0 to |e.namespaces|
      invariant RunRules(e, operation, c, e.namespaces, Started(results, out, history))
             == RunRules(e, operation, c, e.namespaces[i..], Phase(found, err, copy, out', history'))
    {
      assert e.namespaces[i..][1..] == e.namespaces[i + 1..];
      var name := RuleName(e.namespaces[i], operation, c);
      if e.check(history', name) {
        var answer := e.exists_(history', name, found);
        found := answer.1;
        if answer.0 && found {
          var outcome := e.exec(history', name, copy, out');
          history' := history' + [Rule(c, name, copy, out', outcome.0, outcome.1, outcome.2)];
          copy, out' := outcome.1, outcome.2;
          if !outcome.0.ok {
            err := outcome.0;
          }
        }
      }
    }
  }

  // ----- plugin_base::call ----------------------------------------------------------------

  function Digits(n: nat): string {
    (if n < 10 then "" else Digits(n / 10)) + [('0' as int + n % 10) as char]
  }

  /** std::to_string */
  function ToString(n: int): string {
    if n < 0 then "-" + Digits(-n) else Digits(n)
  }

  /** The value of a string of decimal digits. */
  function Numeral(s: string): int
    decreases |s|
  {
    if s == "" then 0 else Numeral(s[..|s| - 1]) * 10 + (s[|s| - 1] as int - '0' as int)
  }

  ghost predicate IsNumeral(s: string, n: nat) {
    && s != "" && Numeral(s) == n
    && (forall i :: 0 <= i < |s| ==> '0' <= s[i] <= '9')
    && (s[0] == '0' ==> |s| == 1)
  }

  lemma OneDigitMore(s: string, n: nat, c: char)
    requires '0' <= c <= '9' && if n == 0 then s == "" else IsNumeral(s, n) && s[0] != '0'
    ensures IsNumeral(s + [c], n * 10 + (c as int - '0' as int))
    ensures n > 0 || c != '0' ==> (s + [c])[0] != '0'
  {
    assert (s + [c])[..|s|] == s;
  }

  lemma {:induction false} DigitsAreNumeral(n: nat)
    ensures IsNumeral(Digits(n), n)
    ensures n > 0 ==> Digits(n)[0] != '0'
  {
    if n >= 10 {
      DigitsAreNumeral(n / 10);
    }
    OneDigitMore(if n < 10 then "" else Digits(n / 10), n / 10, ('0' as int + n % 10) as char);
  }

  /** A number in decimal, without leading zeros and with a sign only if it is negative. */
  lemma ToStringIsDecimal(n: int)
    ensures if n < 0 then ToString(n)[..1] == "-" && IsNumeral(ToString(n)[1..], -n) else IsNumeral(ToString(n), n)
  {
    DigitsAreNumeral(if n < 0 then -n else n);
    assert n < 0 ==> ToString(n)[1..] == Digits(-n);
  }

  function Formatted(err: Error): string {
    "error=" + ToString(err.code) + ";message=" + err.result
  }

  function CastError(operation: string): Error {
    Error(false, INVALID_ANY_CAST, "failed for call - " + operation)
  }

  /** One run of a phase as its caller sees it: every matching rule once and in order, chained. */
  ghost predicate PhaseRan(e: Engine, operation: string, c: Class, results: string, out: string,
                           before: History, events: seq<Event>)
  {
    var s := Started(results, out, before);
    && RunRules(e, operation, c, e.namespaces, s).history == before + events
    && Chained(events, results, out, RunRules(e, operation, c, e.namespaces, s).out)
    && Answered(e, before, events)
    && exists ran: seq<nat> :: RanInOrder(e, operation, c, e.namespaces, s, ran, events)
  }

  lemma PhaseRuns(e: Engine, operation: string, c: Class, results: string, out: string, before: History)
    returns (events: seq<Event>)
    ensures var r := RunRules(e, operation, c, e.namespaces, Started(results, out, before));
            && PhaseRan(e, operation, c, results, out, before, events)
            && InClass(events, c) && r.saved == LastFailure(events, SUCCESS)
  {
    var s := Started(results, out, before);
    var events' := PhaseReports(e, operation, c, e.namespaces, s);
    var ran;
    ran, events := MatchesRunOnceInOrder(e, operation, c, e.namespaces, s);
    SameTail(before, events, events');
  }

  lemma SameTail<T>(front: seq<T>, a: seq<T>, b: seq<T>)
    requires front + a == front + b
    ensures a == b
  {
    assert a == (front + a)[|front|..] && b == (front + b)[|front|..];
  }

  function PluginCall(e: Engine, operation: string, castable: bool, t0: History): (Error, History) {
    var nss := e.namespaces;
    var pre := RunRules(e, operation, Pre, nss, Started("", "", t0));
    if !pre.saved.ok then
      (pre.saved, RunRules(e, operation, Except, nss, Started("", Formatted(pre.saved), pre.history)).history)
    else if !castable then (CastError(operation), pre.history)
    else
      var (err, left) := e.operation(pre.history, pre.out);
      var t1 := pre.history + [Operation(pre.out, err, left)];
      if !err.ok then (err, RunRules(e, operation, Except, nss, Started(left, Formatted(err), t1)).history)
      else
        var post := RunRules(e, operation, Post, nss, Started(left, left, t1));
        if !post.saved.ok then
          (post.saved, RunRules(e, operation, Except, nss, Started(left, Formatted(post.saved), post.history)).history)
        else (err, post.history)
  }

  /** Safety of a call, on the events `pre`, `op`, `post` and `except` of its four phases. */
  ghost predicate SafeCall(e: Engine, operation: string, castable: bool, t0: History, err: Error,
                           pre: seq<Event>, op: seq<Event>, post: seq<Event>, except: seq<Event>)
  {
    && InClass(pre, Pre) && InClass(post, Post) && InClass(except, Except)
    // The operation runs at most once, and only if no pre rule failed.
    && |op| <= 1 && (forall k :: 0 <= k < |op| ==> op[k].Operation?)
    && (|op| == 1 <==> LastFailure(pre, SUCCESS).ok && castable)
    && (|op| == 1 ==> (op[0].err, op[0].left) == e.operation(t0 + pre, op[0].results))
    && PhaseRan(e, operation, Pre, "", "", t0, pre)
    // Post rules run only behind an operation that succeeded, and then they do.
    && (if |op| == 1 && op[0].err.ok then PhaseRan(e, operation, Post, op[0].left, op[0].left, t0 + pre + op, post)
        else post == [])
    // What is returned is the failure of the phase that failed, or the operation's success.
    && err == (if !LastFailure(pre, SUCCESS).ok then LastFailure(pre, SUCCESS)
               else if !castable then Error(false, -1822000, "failed for call - " + operation)
               else if !op[0].err.ok then op[0].err
               else if !LastFailure(post, SUCCESS).ok then LastFailure(post, SUCCESS)
               else op[0].err)
    // The except phase runs once and exactly then, except when the operation cannot be cast.
    && ((err.ok || (|op| == 0 && LastFailure(pre, SUCCESS).ok)) ==> except == [])
    && (!err.ok && !(|op| == 0 && LastFailure(pre, SUCCESS).ok) ==>
          PhaseRan(e, operation, Except, if |op| == 0 then "" else op[0].left,
                   "error=" + ToString(err.code) + ";message=" + err.result, t0 + pre + op + post, except))
  }

  /** What the phases hand to each other: the pre rules start from an empty string, the operation
      sees what they leave, post rules start from what the operation leaves, except rules from
      the formatted error. Outside the out parameter rules change nothing for later phases: each
      phase starts from the results the operation left, or the empty ones in front of it. */
  ghost predicate Threaded(err: Error, pre: seq<Event>, op: seq<Event>, post: seq<Event>, except: seq<Event>,
                           out: string, end: string, last: string)
  {
    var left := if |op| == 1 && op[0].Operation? then op[0].left else "";
    && Chained(pre, "", "", out)
    && (|op| == 1 ==> op[0].Operation? && op[0].results == out)
    && (post != [] ==> Chained(post, left, left, end))
    && (except != [] ==> Chained(except, left, "error=" + ToString(err.code) + ";message=" + err.result, last))
  }

  lemma NothingBehind(h: History)
    ensures h + [] == h
  {
  }

  /** Every call is safe and threads its results, for every engine, operation and history. */
  lemma PluginCallIsSafe(e: Engine, operation: string, castable: bool, t0: History)
    returns (pre: seq<Event>, op: seq<Event>, post: seq<Event>, except: seq<Event>, out: string, end: string, last: string)
    ensures var (err, t) := PluginCall(e, operation, castable, t0);
            && t == t0 + pre + op + post + except
            && SafeCall(e, operation, castable, t0, err, pre, op, post, except)
            && Threaded(err, pre, op, post, except, out, end, last)
  {
    var nss := e.namespaces;
    var r := RunRules(e, operation, Pre, nss, Started("", "", t0));
    pre := PhaseRuns(e, operation, Pre, "", "", t0);
    op, post, except, out, end, last := [], [], [], r.out, "", "";
    if !r.saved.ok {
      except, last := ExceptRuns(e, operation, "", r.saved, r.history);
    } else if castable {
      var (err, left) := e.operation(r.history, r.out);
      op := [Operation(r.out, err, left)];
      if !err.ok {
        except, last := ExceptRuns(e, operation, left, err, r.history + op);
      } else {
        var q := RunRules(e, operation, Post, nss, Started(left, left, r.history + op));
        post := PhaseRuns(e, operation, Post, left, left, r.history + op);
        end := q.out;
        if !q.saved.ok {
          except, last := ExceptRuns(e, operation, left, q.saved, q.history);
        }
      }
    }
    NothingBehind(t0 + pre);
    NothingBehind(t0 + pre + op);
    NothingBehind(t0 + pre + op + post);
  }

  lemma ExceptRuns(e: Engine, operation: string, results: string, err: Error, before: History)
    returns (except: seq<Event>, last: string)
    ensures InClass(except, Except) && Chained(except, results, Formatted(err), last)
    ensures PhaseRan(e, operation, Except, results, Formatted(err), before, except)
  {
    except := PhaseRuns(e, operation, Except, results, Formatted(err), before);
    last := RunRules(e, operation, Except, e.namespaces, Started(results, Formatted(err), before)).out;
  }

  /** An engine with one namespace whose rules all run and succeed. */
  function OneRule(): Engine {
    Engine([""], (h, name) => true, (h, name, found) => (true, true), (h, name, seen, out) => (SUCCESS, seen, out),
           (h, results) => (SUCCESS, results))
  }

  /** A call of a missing operation fails behind its pre rule, and no except rule follows. */
  lemma FailedCastRunsNoExceptRules()
    ensures PluginCall(OneRule(), "op", false, []) ==
              (CastError("op"), [Rule(Pre, "pep_op_pre", "", "", SUCCESS, "", "")])
    ensures Match(OneRule(), "op", Except, "", Started("", "", [])).0
  {
    RuleNames("", "op");
    assert "" + "pep_" + "op" + "_pre" == "pep_op_pre";
    var e, s := OneRule(), Started("", "", []);
    assert e.namespaces == [""] && e.namespaces[1..] == [];
    var ran := [Rule(Pre, RuleName("", "op", Pre), "", "", SUCCESS, "", "")];
    assert [] + ran == ran;
    assert RunRule(e, "op", Pre, "", s) == Phase(true, SUCCESS, "", "", ran);
    assert RunRules(e, "op", Pre, e.namespaces, s) == RunRules(e, "op", Pre, [], RunRule(e, "op", Pre, "", s));
  }

  /** The operations of a plugin; `true` marks an entry of the function type the call asks for. */
  class PluginBase {
    var operations: map<string, bool>

    constructor ()
      ensures operations == map[]
    {
      operations := map[];
    }

    method AddOperation(op: string, castable: bool) returns (err: Error)
      modifies this
      ensures err.ok <==> op != ""
      ensures operations == if op == "" then old(operations) else old(operations)[op := castable]
      ensures !err.ok ==> err.code == -130000
    {
      if op == "" {
        return Error(false, SYS_INVALID_INPUT_PARAM, "empty operation [" + op + "]");
      }
      operations := operations[op := castable];
      return SUCCESS;
    }

    /** `call`. Looking up a missing operation creates an empty entry, which cannot be cast; the
        cast happens behind the pre phase. */
    method Call(e: Engine, operation: string, t0: History) returns (err: Error, t: History)
      modifies this
      ensures (err, t) == PluginCall(e, operation, operation in old(operations) && old(operations)[operation], t0)
      ensures operations == old(operations)
           || (operation !in old(operations) && operations == old(operations)[operation := false])
    {
      var outParam;
      var results := "";
      err, outParam, t := InvokePolicyEnforcementPoint(e, results, "", operation, Pre, t0);
      if !err.ok {
        var exceptErr;
        exceptErr, outParam, t := InvokePolicyEnforcementPoint(e, results, Formatted(err), operation, Except, t);
        return;
      }
      results := outParam;
      if operation !in operations {
        operations := operations[operation := false];
      }
      if !operations[operation] {
        return CastError(operation), t;
      }
      var outcome := e.operation(t, results);
      t := t + [Operation(results, outcome.0, outcome.1)];
      results, outParam := outcome.1, outcome.1;
      if !outcome.0.ok {
        var exceptErr;
        exceptErr, outParam, t := InvokePolicyEnforcementPoint(e, results, Formatted(outcome.0), operation, Except, t);
        return outcome.0, t;
      }
      err, outParam, t := InvokePolicyEnforcementPoint(e, results, outParam, operation, Post, t);
      if !err.ok {
        var exceptErr;
        exceptErr, outParam, t := InvokePolicyEnforcementPoint(e, results, Formatted(err), operation, Except, t);
        return;
      }
      return outcome.0, t;
    }
  }

  // ----- api_entry::call_handler -----------------------------------------------------------

  datatype Entry = Missing | Uncastable | Castable

  predicate IsAcceptableError(code: int) {
    code == SYS_NO_HANDLER_REPLY_MSG
  }

  /** api_call_adaptor: a handler's return value as an error. */
  function Adapted(ret: int): Error {
    if ret >= 0 then Error(true, ret, "") else Error(false, ret, "fail")
  }

  /** The handler's rules get no out parameter. */
  function WithoutOut(e: Engine): Engine {
    e.(exec := (h: History, name: string, seen: string, out: string) =>
         var (err, results, _) := e.exec(h, name, seen, out); (err, results, out))
  }

  function HandlerCall(e: Engine, operation: string, entry: Entry, handler: History -> int, t0: History): (int, History) {
    if entry.Missing? then (SYS_INVALID_INPUT_PARAM, t0)
    else if entry.Uncastable? then (INVALID_ANY_CAST, t0)
    else
      var quiet, nss := WithoutOut(e), e.namespaces;
      var pre := RunRules(quiet, operation, Pre, nss, Started("", "", t0));
      if !pre.saved.ok then
        (pre.saved.code, RunRules(quiet, operation, Except, nss, Started("", "", pre.history)).history)
      else
        var err := Adapted(handler(pre.history));
        var t1 := pre.history + [Operation("", err, "")];
        if !err.ok && !IsAcceptableError(err.code) then
          (err.code, RunRules(quiet, operation, Except, nss, Started("", "", t1)).history)
        else
          var post := RunRules(quiet, operation, Post, nss, Started("", "", t1));
          if !post.saved.ok then
            (post.saved.code, RunRules(quiet, operation, Except, nss, Started("", "", post.history)).history)
          else (err.code, post.history)
  }

  /** The rules of a handler are handed the empty string, and what they write there is lost. */
  ghost predicate Quiet(e: Engine, before: History, events: seq<Event>) {
    forall k :: 0 <= k < |events| ==>
      && events[k].Rule? && events[k].before == "" == events[k].after
      && var (err, results, _) := e.exec(before + events[..k], events[k].name, events[k].seen, "");
         (events[k].err, events[k].leaves) == (err, results)
  }

  lemma {:induction false} ChainedQuietly(events: seq<Event>, results: string, end: string)
    requires Chained(events, results, "", end)
    requires forall k :: 0 <= k < |events| ==> events[k].Rule? && events[k].after == events[k].before
    ensures forall k :: 0 <= k < |events| ==> events[k].before == ""
    decreases |events|
  {
    if events != [] {
      ChainedQuietly(events[1..], events[0].leaves, end);
      assert forall k :: 0 < k < |events| ==> events[k] == events[1..][k - 1];
    }
  }

  lemma QuietRuns(e: Engine, operation: string, c: Class, before: History) returns (events: seq<Event>)
    ensures var quiet := WithoutOut(e);
            var r := RunRules(quiet, operation, c, e.namespaces, Started("", "", before));
            && PhaseRan(quiet, operation, c, "", "", before, events)
            && InClass(events, c) && r.saved == LastFailure(events, SUCCESS)
            && Quiet(e, before, events)
  {
    var quiet := WithoutOut(e);
    events := PhaseRuns(quiet, operation, c, "", "", before);
    ChainedQuietly(events, "", RunRules(quiet, operation, c, e.namespaces, Started("", "", before)).out);
  }

  /** The same safety for handlers, where SYS_NO_HANDLER_REPLY_MSG also leads to the post phase
      and a handler that is missing or of another type is found out before any rule runs. */
  ghost predicate SafeHandler(e: Engine, operation: string, entry: Entry, handler: History -> int, t0: History, code: int,
                              pre: seq<Event>, op: seq<Event>, post: seq<Event>, except: seq<Event>)
  {
    var quiet, ret := WithoutOut(e), handler(t0 + pre);
    var goesOn := |op| == 1 && (ret >= 0 || ret == -99999999);
    && InClass(pre, Pre) && InClass(post, Post) && InClass(except, Except)
    && Quiet(e, t0, pre) && Quiet(e, t0 + pre + op, post) && Quiet(e, t0 + pre + op + post, except)
    && |op| <= 1 && (|op| == 1 ==> op[0].Operation? && op[0].err.code == ret && (op[0].err.ok <==> ret >= 0))
    && (|op| == 1 <==> entry.Castable? && LastFailure(pre, SUCCESS).ok)
    && (if entry.Castable? then PhaseRan(quiet, operation, Pre, "", "", t0, pre) else pre == [])
    && (if goesOn then PhaseRan(quiet, operation, Post, "", "", t0 + pre + op, post) else post == [])
    && var failed :=
         if !LastFailure(pre, SUCCESS).ok then [LastFailure(pre, SUCCESS).code]
         else if |op| == 1 && !goesOn then [ret]
         else if !LastFailure(post, SUCCESS).ok then [LastFailure(post, SUCCESS).code]
         else [];
       && (if failed != [] then PhaseRan(quiet, operation, Except, "", "", t0 + pre + op + post, except)
           else except == [])
       && code == (if failed != [] then failed[0]
                   else if entry.Missing? then -130000
                   else if entry.Uncastable? then -1822000
                   else ret)
  }

  lemma HandlerCallIsSafe(e: Engine, operation: string, entry: Entry, handler: History -> int, t0: History)
    returns (pre: seq<Event>, op: seq<Event>, post: seq<Event>, except: seq<Event>)
    ensures var (code, t) := HandlerCall(e, operation, entry, handler, t0);
            && t == t0 + pre + op + post + except
            && SafeHandler(e, operation, entry, handler, t0, code, pre, op, post, except)
  {
    pre, op, post, except := [], [], [], [];
    if entry.Castable? {
      var quiet, nss := WithoutOut(e), e.namespaces;
      var r := RunRules(quiet, operation, Pre, nss, Started("", "", t0));
      pre := QuietRuns(e, operation, Pre, t0);
      if !r.saved.ok {
        except := QuietRuns(e, operation, Except, r.history);
      } else {
        var err := Adapted(handler(r.history));
        op := [Operation("", err, "")];
        if !err.ok && !IsAcceptableError(err.code) {
          except := QuietRuns(e, operation, Except, r.history + op);
        } else {
          var q := RunRules(quiet, operation, Post, nss, Started("", "", r.history + op));
          post := QuietRuns(e, operation, Post, r.history + op);
          if !q.saved.ok {
            except := QuietRuns(e, operation, Except, q.history);
          }
        }
      }
    }
    NothingBehind(t0);
    NothingBehind(t0 + pre);
    NothingBehind(t0 + pre + op);
    NothingBehind(t0 + pre + op + post);
  }

  class ApiEntry {
    var operationName: string
    var operations: map<string, bool>

    constructor (name: string, castable: bool)
      ensures operationName == name && operations == map[name := castable]
    {
      operationName, operations := name, map[name := castable];
    }

    method AddOperation(op: string, castable: bool) returns (err: Error)
      modifies this
      ensures err.ok <==> op != ""
      ensures op == "" ==> err.code == -130000 && unchanged(this)
      ensures op != "" ==> operationName == op && operations == old(operations)[op := castable]
    {
      if op == "" {
        return Error(false, SYS_INVALID_INPUT_PARAM, "empty operation key [" + op + "]");
      }
      operationName := op;
      operations := operations[operationName := castable];
      return SUCCESS;
    }

    method CallHandler(e: Engine, handler: History -> int, t0: History) returns (code: int, t: History)
      ensures var entry := if operationName !in operations then Missing
                           else if operations[operationName] then Castable else Uncastable;
              (code, t) == HandlerCall(e, operationName, entry, handler, t0)
    {
      if operationName !in operations {
        return SYS_INVALID_INPUT_PARAM, t0;
      }
      if !operations[operationName] {
        return INVALID_ANY_CAST, t0;
      }
      var quiet := WithoutOut(e);
      var out, exceptErr;
      var preErr;
      preErr, out, t := InvokePolicyEnforcementPoint(quiet, "", "", operationName, Pre, t0);
      if !preErr.ok {
        exceptErr, out, t := InvokePolicyEnforcementPoint(quiet, "", "", operationName, Except, t);
        return preErr.code, t;
      }
      var opErr := Adapted(handler(t));
      t := t + [Operation("", opErr, "")];
      if !opErr.ok && !IsAcceptableError(opErr.code) {
        exceptErr, out, t := InvokePolicyEnforcementPoint(quiet, "", "", operationName, Except, t);
        return opErr.code, t;
      }
      var postErr;
      postErr, out, t := InvokePolicyEnforcementPoint(quiet, "", "", operationName, Post, t);
      if !postErr.ok {
        exceptErr, out, t := InvokePolicyEnforcementPoint(quiet, "", "", operationName, Except, t);
        return postErr.code, t;
      }
      return opErr.code, t;
    }
  }
}
