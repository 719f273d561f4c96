/**
 The per-connection object of the RESP server (connState in internal/resp/server.go): fields
 changed step by step on the event loop, each method tied to its step in RespRun.
 */
module RespServer {
  import opened Bytes
  import opened Bitset
  import opened Rbac
  import opened Policy
  import opened RespRun
  import S = RespSafety
  import R = Resp

  class ConnState {
    const w: World
    var authPending: Option<Job>
    var authenticated: bool
    var session: Option<Session>
    var authFails: nat
    var closeAfterReply: bool
    var closed: bool
    var inbound: seq<byte>
    var out: seq<(nat, Reply)>
    var written: seq<(nat, Reply)>
    var seen: nat
    ghost var trace: seq<Note>
    ghost var events: seq<Event>

    /** The object's fields are the state its events lead to, so ConnectionSafe holds of it. */
    ghost predicate Valid()
      reads this
    {
      State() == Run(w, events)
    }

    lemma Settled()
      requires Valid()
      ensures out == [] && (closeAfterReply ==> closed) && (authPending.Some? ==> seen > 0)
    {
      S.RunInv(w, events);
    }

    ghost function State(): Conn
      reads this
    {
      Conn(authPending, authenticated, session, authFails, closeAfterReply, closed, inbound, out, written, seen, trace)
    }

    /** OnOpen. */
    constructor (w: World)
      ensures this.w == w && Valid() && events == []
    {
      this.w := w;
      events := [];
      authPending, authFails, closeAfterReply, closed := None, 0, false, false;
      inbound, out, written, seen := [], [], [], 0;
      if w.hasPolicy {
        if w.atOpen.Some? && w.atOpen.value.NoPassDefault() {
          authenticated, session := true, Some(Session(B("default"), w.atOpen.value.RoleFor(B("default"))));
          trace := [Pinned(None, false, session)];
        } else {
          authenticated, session, trace := false, None, [];
        }
      } else {
        authenticated, session := !w.needsPass, None;
        trace := if w.needsPass then [] else [Pinned(None, false, None)];
      }
    }

    method Say(r: Reply)
      requires seen > 0
      modifies this`out, this`trace
      ensures State() == old(State()).Say(r)
    {
      out := out + [(seen - 1, r)];
      trace := trace + [Said(r)];
    }

    /** denyKey: is some key out of the session's reach? Without a session the first one is. */
    method DenyKey(cmd: u16, keys: seq<Text>) returns (denied: bool)
      requires keys != []
      ensures denied <==> !Allowed(session, cmd, keys)
    {
      if session.None? { return true; }
      hide Has;
      for i := 0 to |keys|
        invariant forall j :: 0 <= j < i ==> session.value.IsAllowed(cmd, keys[j])
      {
        if !session.value.IsAllowed(cmd, keys[i]) { return true; }
      }
      return false;
    }

    /** command.Execute. */
    method ExecuteData(cmd: u16, arity: nat, args: seq<Text>)
      requires seen > 0 && arity >= 2
      modifies this`out, this`trace
      ensures State() == Execute(w, old(State()), cmd, arity, args)
    {
      hide Allowed, R.SetTtl, Misused;
      if |args| < arity { Say(Arity); return; }
      if w.hasPolicy {
        var denied := DenyKey(cmd, Keys(cmd, args));
        if denied { Say(NoPerm); return; }
      }
      var wrong := Misused(cmd, args);
      if wrong.Some? { Say(wrong.value); return; }
      trace := trace + [Ran(cmd, Keys(cmd, args))];
      Say(Data);
    }

    /** authFailed: the third rejection closes. */
    method AuthFailed()
      requires seen > 0
      modifies this`authFails, this`closeAfterReply, this`trace, this`out
      ensures State() == Fail(old(State())).Say(InvalidPassword)
    {
      trace := trace + [Rejected];
      authFails := authFails + 1;
      if authFails >= MAX_AUTH_FAILS { closeAfterReply := true; }
      Say(InvalidPassword);
    }

    method DispatchAuth(job: Job)
      requires seen > 0
      modifies this`authPending, this`trace, this`out
      ensures State() == Submit(w, old(State()), job)
    {
      if !w.accepts(seen - 1) { Say(InvalidPassword); return; }
      authPending := Some(job);
      trace := trace + [AuthStarted];
    }

    method AuthRbac(args: seq<Text>)
      requires seen > 0 && |args| >= 2
      modifies this
      ensures events == old(events)
      ensures State() == RespRun.AuthRbac(w, old(State()), args)
    {
      hide B, Policy.RoleFor;
      var username := UserName(args);
      var p := w.policy(seen - 1);
      if p.None? { AuthFailed(); return; }
      if username !in p.value.users { AuthFailed(); return; }
      var u := p.value.users[username];
      var pinned := Some(Session(username, p.value.RoleFor(username)));
      if |u.hash| == 0 {
        PinSession(false, pinned);
        Say(Ok);
        return;
      }
      DispatchAuth(Password(pinned));
    }

    method Auth(args: seq<Text>)
      requires seen > 0
      modifies this
      ensures events == old(events)
      ensures State() == RespRun.Auth(w, old(State()), args)
    {
      hide B, RespRun.AuthRbac, Submit, Fail;
      if |args| != 2 && |args| != 3 { Say(Arity); return; }
      if w.hasPolicy {
        if |args| == 2 && w.isToken(args[1]) {
          DispatchAuth(Token);
        } else {
          AuthRbac(args);
        }
        return;
      }
      if !w.needsPass { Say(Ok); return; }
      if UserName(args) != B("default") { AuthFailed(); return; }
      DispatchAuth(Password(None));
    }

    method DispatchOne(args: seq<Text>)
      requires seen > 0
      modifies this
      ensures events == old(events)
      ensures State() == Dispatch(w, old(State()), args)
    {
      hide B, Upper, RespRun.Auth, Execute, AdminAllowed;
      if |args| == 0 { Say(Empty); return; }
      var cmd := Upper(args[0]);
      if cmd == B("AUTH") { Auth(args); return; }
      if !authenticated {
        if cmd != B("PING") && cmd != B("QUIT") { Say(NoAuth); return; }
      }
      var data := DataCommand(args[0]);
      if data.Some? { ExecuteData(data.value.0, data.value.1, args); return; }
      if cmd == B("PING") {
        Say(if |args| >= 2 then Echo else Pong);
        return;
      }
      var admin := AdminCommand(args[0]);
      if admin.Some? {
        var allowed := Authorized(admin.value);
        if !allowed { Say(NoPerm); return; }
        trace := trace + [AdminRan(admin.value)];
        Say(Admin);
        return;
      }
      if cmd == B("QUIT") {
        closeAfterReply := true;
        Say(Ok);
        return;
      }
      Say(Unknown);
    }

    method Authorized(cmd: u16) returns (ok: bool)
      ensures ok <==> AdminAllowed(w, State(), cmd)
    {
      if !w.hasPolicy { return true; }
      return session.Some? && session.value.AllowsCommand(cmd);
    }

    /** processBuffer: consumed walks the buffer until a reason to stop; bad drops the replies. */
    method ProcessBuffer() returns (bad: bool)
      requires !closed && authPending.None? && !closeAfterReply
      modifies this
      ensures events == old(events)
      ensures State() == Process(w, old(State())).(closed := false, out := out)
      ensures bad <==> Process(w, old(State())).closed
      ensures !bad ==> State() == Process(w, old(State()))
    {
      hide Dispatch, R.Parse;
      var src := inbound;
      var consumed := 0;
      ghost var start := State();
      assert src[0..] == src;
      while consumed < |src|
        invariant 0 <= consumed <= |src| && inbound == src[consumed..]
        invariant authPending.None? && !closeAfterReply && !closed
        invariant Process(w, start) == Process(w, State()) && events == old(events)
      {
        var parsed := R.ParseLoop(src[consumed..]);
        if parsed.More? { return false; }
        if parsed.Bad? { return true; }
        ghost var before := State();
        consumed := consumed + parsed.consumed;
        inbound := src[consumed..];
        assert before.buf[parsed.consumed..] == inbound;
        seen := seen + 1;
        trace := trace + [Arrived(parsed.args)];
        assert State() == Take(before, parsed.args, parsed.consumed);
        DispatchOne(parsed.args);
        if authPending.Some? || closeAfterReply { return false; }
      }
      NoBytes();
      return false;
    }

    lemma NoBytes()
      ensures R.Parse([]).More?
    {}

    /** onTrafficPlaintext: while a verdict is awaited, bytes only pile up. */
    method OnTraffic(chunk: seq<byte>)
      requires Valid()
      modifies this
      ensures Valid() && events == old(events) + [Traffic(chunk)]
    {
      hide Process, Run;
      Settled();
      Unfold(Traffic(chunk));
      events := events + [Traffic(chunk)];
      if closed { return; }
      inbound := inbound + chunk;
      if authPending.Some? { return; }
      ghost var start := State();
      var bad := ProcessBuffer();
      BadDrops(start);
      if bad {
        closed, out := true, [];
        return;
      }
      FlushOut();
    }

    lemma Unfold(e: Event)
      ensures Run(w, events + [e]) == Step(w, Run(w, events), e)
    {
      assert (events + [e])[..|events|] == events;
    }

    lemma {:induction false} BadDrops(c: Conn)
      ensures Process(w, c).closed && !c.closed ==> Process(w, c).out == []
      decreases |c.buf|
    {
      hide Dispatch, R.Parse;
      var p := R.Parse(c.buf);
      if p.Command? {
        BadDrops(Dispatch(w, Take(c, p.args, p.consumed), p.args));
      }
    }

    /** The worker's callback on the loop: the reply is written at once. */
    method OnVerdict(success: bool, tokenSession: Option<Session>)
      requires Valid()
      modifies this
      ensures Valid() && events == old(events) + [Verdict(success, tokenSession)]
    {
      hide Process, Run, Resolve;
      Settled();
      Unfold(Verdict(success, tokenSession));
      events := events + [Verdict(success, tokenSession)];
      if closed || authPending.None? { return; }
      Conclude(success, tokenSession);
    }

    method Conclude(success: bool, tokenSession: Option<Session>)
      requires authPending.Some? && seen > 0 && !closed && out == []
      modifies this
      ensures State() == Resolve(old(State()), success, tokenSession) && events == old(events)
    {
      hide Pin, Fail, Flush;
      var job := authPending.value;
      authPending := None;
      var good := if job.Token? then tokenSession.Some? else success;
      trace := trace + [AuthEnded(good)];
      if good {
        PinSession(job.Token?, if job.Token? then tokenSession else job.session);
        Say(Ok);
      } else {
        AuthFailed();
      }
      FlushOut();
    }

    method PinSession(token: bool, pinned: Option<Session>)
      requires seen > 0
      modifies this`authenticated, this`session, this`trace
      ensures State() == Pin(old(State()), Some(seen - 1), token, pinned)
    {
      authenticated, session := true, pinned;
      trace := trace + [Pinned(Some(seen - 1), token, pinned)];
    }

    method FlushOut()
      requires !closed
      modifies this`written, this`out, this`closed
      ensures State() == Flush(old(State()))
    {
      written := written + out;
      out := [];
      if closeAfterReply { closed := true; }
    }
  }
}
