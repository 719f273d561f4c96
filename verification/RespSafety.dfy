/**
 Safety of a RESP connection over every run of traffic and verdicts, stated on the trace alone:
 who was pinned and whether a verdict was awaited are read off the trace, not off the
 connection's fields.
 */
module RespSafety {
  import opened Bytes
  import opened Bitset
  import opened Rbac
  import opened Policy
  import opened RespRun
  import R = Resp

  // ----- Reading a trace -----

  /** An AUTH was handed out and its verdict is not back. */
  function Awaiting(t: seq<Note>): bool {
    if t == [] then false
    else
      match t[|t| - 1]
      case AuthStarted => true
      case AuthEnded(_) => false
      case _ => Awaiting(t[..|t| - 1])
  }

  /** The last session pinned, by AUTH or at open. */
  function LastPin(t: seq<Note>): (p: Option<Note>)
    ensures p.Some? ==> p.value.Pinned?
  {
    if t == [] then None
    else if t[|t| - 1].Pinned? then Some(t[|t| - 1])
    else LastPin(t[..|t| - 1])
  }

  function Rejections(t: seq<Note>): nat {
    if t == [] then 0 else Rejections(t[..|t| - 1]) + if t[|t| - 1].Rejected? then 1 else 0
  }

  function Cmds(t: seq<Note>): seq<seq<Text>> {
    if t == [] then [] else Cmds(t[..|t| - 1]) + if t[|t| - 1].Arrived? then [t[|t| - 1].args] else []
  }

  function Saids(t: seq<Note>): seq<Reply> {
    if t == [] then [] else Saids(t[..|t| - 1]) + if t[|t| - 1].Said? then [t[|t| - 1].reply] else []
  }

  /** The command just taken. */
  function At(t: seq<Note>): Option<seq<Text>> {
    if t != [] && t[|t| - 1].Arrived? then Some(t[|t| - 1].args) else None
  }

  predicate EndsWith(t: seq<Note>, n: Note) { t != [] && t[|t| - 1] == n }

  predicate Is(args: seq<Text>, name: string) { args != [] && Upper(args[0]) == B(name) }

  /** The session a password AUTH pins is the user's role in the snapshot that AUTH saw. */
  predicate FromSnapshot(w: World, n: nat, session: Option<Session>) {
    session.Some? && w.policy(n).Some? && session.value.role == w.policy(n).value.RoleFor(session.value.user)
    && session.value.user in w.policy(n).value.users
  }

  predicate OpenPin(w: World, session: Option<Session>) {
    if w.hasPolicy then
      && w.atOpen.Some? && w.atOpen.value.NoPassDefault()
      && session == Some(Session(B("default"), w.atOpen.value.RoleFor(B("default"))))
    else !w.needsPass && session == None
  }

  // ----- AUTH, by what its arguments and the snapshot say -----

  datatype AuthCase = WrongArity | Unneeded | Unknown | NoPass(session: Option<Session>) | ToVerify

  function AuthKind(w: World, n: nat, args: seq<Text>): AuthCase {
    if |args| != 2 && |args| != 3 then WrongArity
    else if !w.hasPolicy then
      if !w.needsPass then Unneeded else if UserName(args) == B("default") then ToVerify else AuthCase.Unknown
    else if |args| == 2 && w.isToken(args[1]) then ToVerify
    else
      var p := w.policy(n);
      if p.None? || UserName(args) !in p.value.users then AuthCase.Unknown
      else if p.value.users[UserName(args)].hash == [] then
        NoPass(Some(Session(UserName(args), p.value.RoleFor(UserName(args)))))
      else ToVerify
  }

  /** AUTH number n arrived just now and is of the given kind. */
  predicate AuthIs(w: World, t: seq<Note>, k: AuthCase) {
    At(t).Some? && |Cmds(t)| > 0 && Is(At(t).value, "AUTH") && AuthKind(w, |Cmds(t)| - 1, At(t).value) == k
  }

  // ----- What may happen next -----

  /** A data command just arrived on a pinned connection with enough arguments. */
  predicate DataAt(t: seq<Note>, cmd: u16) {
    && At(t).Some? && At(t).value != [] && LastPin(t).Some? && !Is(At(t).value, "AUTH")
    && DataCommand(At(t).value[0]).Some? && DataCommand(At(t).value[0]).value.0 == cmd
  }

  predicate Enough(args: seq<Text>) {
    args != [] && DataCommand(args[0]).Some? && |args| >= DataCommand(args[0]).value.1 >= 2
  }

  predicate Permitted(w: World, t: seq<Note>, cmd: u16)
    requires At(t).Some? && |At(t).value| >= 2
  {
    w.hasPolicy ==> LastPin(t).Some? && Allowed(LastPin(t).value.session, cmd, Keys(cmd, At(t).value))
  }

  predicate AdminAt(t: seq<Note>, cmd: u16) {
    && At(t).Some? && At(t).value != [] && LastPin(t).Some? && !Is(At(t).value, "AUTH")
    && AdminCommand(At(t).value[0]) == Some(cmd)
  }

  predicate AdminPermitted(w: World, t: seq<Note>, cmd: u16) {
    w.hasPolicy ==>
      LastPin(t).Some? && LastPin(t).value.session.Some? && LastPin(t).value.session.value.AllowsCommand(cmd)
  }

  /** A data handler runs for the command that arrived, on its own keys, all of them allowed. */
  predicate RunsNow(w: World, t: seq<Note>, cmd: u16, keys: seq<Text>) {
    && DataAt(t, cmd) && Enough(At(t).value) && Permitted(w, t, cmd)
    && keys == Keys(cmd, At(t).value) && Misused(cmd, At(t).value).None?
  }

  /** A reply says what happened to the command it answers, and a refusal has its reason. */
  predicate SaysNow(w: World, t: seq<Note>, r: Reply) {
    match r
    case Data => t != [] && t[|t| - 1].Ran?
    case Admin => t != [] && t[|t| - 1].AdminRan?
    case InvalidPassword => EndsWith(t, Rejected) || (AuthIs(w, t, ToVerify) && !w.accepts(|Cmds(t)| - 1))
    case Ok => (t != [] && t[|t| - 1].Pinned?) || AuthIs(w, t, Unneeded) || (At(t).Some? && Is(At(t).value, "QUIT"))
    case Empty => At(t) == Some([])
    case Arity =>
      || AuthIs(w, t, WrongArity)
      || exists cmd :: DataAt(t, cmd) && (!Enough(At(t).value) || Misused(cmd, At(t).value) == Some(Arity))
    case Syntax => exists cmd :: DataAt(t, cmd) && Misused(cmd, At(t).value) == Some(Syntax)
    case NoAuth =>
      && At(t).Some? && At(t).value != [] && LastPin(t).None?
      && !Is(At(t).value, "AUTH") && !Is(At(t).value, "PING") && !Is(At(t).value, "QUIT")
    case NoPerm =>
      || (exists cmd :: DataAt(t, cmd) && Enough(At(t).value) && !Permitted(w, t, cmd))
      || (exists cmd :: AdminAt(t, cmd) && !AdminPermitted(w, t, cmd))
    case Pong => At(t).Some? && Is(At(t).value, "PING") && |At(t).value| == 1
    case Echo => At(t).Some? && Is(At(t).value, "PING") && |At(t).value| >= 2
    case Unknown =>
      && At(t).Some? && At(t).value != [] && LastPin(t).Some?
      && DataCommand(At(t).value[0]).None? && AdminCommand(At(t).value[0]).None?
      && !Is(At(t).value, "AUTH") && !Is(At(t).value, "PING") && !Is(At(t).value, "QUIT")
  }

  /** Nothing of the last command is left open. */
  predicate Quiet(t: seq<Note>) { t == [] || t[|t| - 1].Said? || (|t| == 1 && t[0].Pinned?) }

  predicate MayFollow(w: World, before: seq<Note>, n: Note) {
    && (n.AuthEnded? <==> Awaiting(before))
    && match n
       case Arrived(_) => Quiet(before)
       case Ran(cmd, keys) => RunsNow(w, before, cmd, keys)
       case AdminRan(cmd) => AdminAt(before, cmd) && AdminPermitted(w, before, cmd)
       case AuthStarted => AuthIs(w, before, ToVerify) && w.accepts(|Cmds(before)| - 1)
       case AuthEnded(_) => true
       case Pinned(auth, token, session) =>
         || (before == [] && auth == None && OpenPin(w, session))
         || (|Cmds(before)| > 0 && auth == Some(|Cmds(before)| - 1) && AuthIs(w, before, NoPass(session)))
         || (&& |Cmds(before)| > 0 && auth == Some(|Cmds(before)| - 1) && EndsWith(before, AuthEnded(true))
             && (w.hasPolicy && !token ==> FromSnapshot(w, |Cmds(before)| - 1, session)))
       case Rejected =>
         Rejections(before) < MAX_AUTH_FAILS
         && (EndsWith(before, AuthEnded(false)) || AuthIs(w, before, AuthCase.Unknown))
       case Said(r) => SaysNow(w, before, r)
  }

  predicate Safe(w: World, t: seq<Note>) {
    t == [] || (Safe(w, t[..|t| - 1]) && MayFollow(w, t[..|t| - 1], t[|t| - 1]))
  }

  lemma {:induction false} SafeAt(w: World, t: seq<Note>, i: nat)
    requires Safe(w, t) && i < |t|
    ensures MayFollow(w, t[..i], t[i])
  {
    var n := |t| - 1;
    if i < n {
      SafeAt(w, t[..n], i);
      assert t[..n][..i] == t[..i];
    }
  }

  // ----- The invariant -----

  /** The replies are those the trace says, to commands 0, 1, 2, ... in this order. */
  ghost predicate Ordered(rs: seq<(nat, Reply)>, said: seq<Reply>) {
    |rs| <= |said| && forall i :: 0 <= i < |rs| ==> rs[i] == (i, said[i])
  }

  ghost predicate Core(w: World, c: Conn) {
    && Safe(w, c.trace)
    && (c.pending.Some? <==> Awaiting(c.trace)) && (c.pending.Some? ==> c.seen > 0)
    && (c.pending.Some? && c.pending.value.Password? && w.hasPolicy
       ==> FromSnapshot(w, c.seen - 1, c.pending.value.session))
    && (c.authenticated <==> LastPin(c.trace).Some?)
    && (c.authenticated ==> c.session == LastPin(c.trace).value.session)
    && c.fails == Rejections(c.trace) <= MAX_AUTH_FAILS && (c.fails == MAX_AUTH_FAILS ==> c.closing)
    && Ordered(c.written + c.out, Saids(c.trace)) && |Cmds(c.trace)| == c.seen
    && (!c.closed ==> |Saids(c.trace)| == |c.written| + |c.out|)
  }

  /** Replies still to come. */
  function Owed(c: Conn): int { c.seen - |c.written| - |c.out| }

  predicate Idle(c: Conn) { c.pending.None? && !c.closing && !c.closed }

  lemma Snoc(t: seq<Note>, n: Note)
    ensures (t + [n])[..|t|] == t
  {}

  /** Adding a permitted note to the trace, and what each reading of the trace makes of it. */
  lemma Noted(w: World, t: seq<Note>, n: Note)
    requires Safe(w, t) && MayFollow(w, t, n)
    ensures var u := t + [n];
            && Safe(w, u)
            && Awaiting(u) == (if n.AuthStarted? then true else if n.AuthEnded? then false else Awaiting(t))
            && LastPin(u) == (if n.Pinned? then Some(n) else LastPin(t))
            && Rejections(u) == Rejections(t) + (if n.Rejected? then 1 else 0)
            && Cmds(u) == (if n.Arrived? then Cmds(t) + [n.args] else Cmds(t))
            && Saids(u) == (if n.Said? then Saids(t) + [n.reply] else Saids(t))
  {
    hide MayFollow;
    Snoc(t, n);
  }

  lemma SayCore(w: World, c: Conn, r: Reply)
    requires Core(w, c) && c.seen > 0 && Owed(c) == 1 && !c.closed && MayFollow(w, c.trace, Said(r))
    ensures Core(w, c.Say(r)) && Owed(c.Say(r)) == 0 && Cmds(c.Say(r).trace) == Cmds(c.trace)
  {
    hide Safe, Awaiting, LastPin, Rejections, Saids, Cmds, FromSnapshot, MayFollow;
    Noted(w, c.trace, Said(r));
    assert c.written + c.Say(r).out == (c.written + c.out) + [(c.seen - 1, r)];
  }

  lemma RunCore(w: World, c: Conn, n: Note)
    requires Core(w, c) && MayFollow(w, c.trace, n) && (n.Ran? || n.AdminRan?)
    ensures Core(w, c.Note(n)) && Cmds(c.Note(n).trace) == Cmds(c.trace)
  {
    hide Safe, Awaiting, LastPin, Rejections, Saids, Cmds, FromSnapshot, MayFollow, Ordered;
    Noted(w, c.trace, n);
  }

  lemma TakeCore(w: World, c: Conn, args: seq<Text>, n: nat)
    requires Core(w, c) && c.pending.None? && n <= |c.buf| && Quiet(c.trace)
    ensures Core(w, Take(c, args, n)) && Cmds(Take(c, args, n).trace) == Cmds(c.trace) + [args]
  {
    hide Safe, Awaiting, LastPin, Rejections, Saids, Cmds, FromSnapshot, Ordered;
    Noted(w, c.trace, Arrived(args));
  }

  lemma PinCore(w: World, c: Conn, auth: Option<nat>, token: bool, session: Option<Session>)
    requires Core(w, c) && c.pending.None? && MayFollow(w, c.trace, Pinned(auth, token, session))
    ensures Core(w, Pin(c, auth, token, session)) && Cmds(Pin(c, auth, token, session).trace) == Cmds(c.trace)
  {
    hide Safe, Awaiting, LastPin, Rejections, Saids, Cmds, FromSnapshot, Ordered, MayFollow;
    Noted(w, c.trace, Pinned(auth, token, session));
  }

  lemma FailCore(w: World, c: Conn)
    requires Core(w, c) && c.pending.None? && !c.closing
             && (EndsWith(c.trace, AuthEnded(false)) || AuthIs(w, c.trace, AuthCase.Unknown))
    ensures Core(w, Fail(c)) && Cmds(Fail(c).trace) == Cmds(c.trace)
  {
    hide Safe, Awaiting, LastPin, Rejections, Saids, Cmds, FromSnapshot, Ordered, AuthIs;
    Noted(w, c.trace, Rejected);
  }

  lemma StartCore(w: World, c: Conn, job: Job)
    requires Core(w, c) && c.pending.None? && c.seen > 0 && AuthIs(w, c.trace, ToVerify) && w.accepts(c.seen - 1)
    requires job.Password? && w.hasPolicy ==> FromSnapshot(w, c.seen - 1, job.session)
    ensures var d := c.(pending := Some(job)).Note(AuthStarted); Core(w, d) && Cmds(d.trace) == Cmds(c.trace)
  {
    hide Safe, Awaiting, LastPin, Rejections, Saids, Cmds, FromSnapshot, Ordered, AuthIs;
    Noted(w, c.trace, AuthStarted);
  }

  lemma EndCore(w: World, c: Conn, good: bool)
    requires Core(w, c) && c.pending.Some?
    ensures var d := c.(pending := None).Note(AuthEnded(good)); Core(w, d) && Cmds(d.trace) == Cmds(c.trace)
  {
    hide Safe, Awaiting, LastPin, Rejections, Saids, Cmds, FromSnapshot, Ordered;
    Noted(w, c.trace, AuthEnded(good));
  }

  // ----- Dispatch keeps it -----

  /** A command has just been taken and nothing was done about it yet. */
  ghost predicate Mid(w: World, c: Conn, args: seq<Text>) {
    Core(w, c) && Idle(c) && c.seen > 0 && Owed(c) == 1 && At(c.trace) == Some(args)
  }

  /** After a dispatch: the command is answered, unless it is an AUTH now in flight. */
  ghost predicate Answered(w: World, c: Conn, d: Conn) {
    && Core(w, d) && Owed(d) == (if d.pending.Some? then 1 else 0) && Cmds(d.trace) == Cmds(c.trace)
    && !d.closed && d.written == c.written && (d.pending.None? ==> Quiet(d.trace))
  }

  lemma SaidAnswered(w: World, c: Conn, d: Conn, r: Reply)
    requires Core(w, d) && d.seen > 0 && Owed(d) == 1 && d.pending.None? && !d.closed && d.written == c.written
             && Cmds(d.trace) == Cmds(c.trace)
    requires SaysNow(w, d.trace, r)
    ensures Answered(w, c, d.Say(r))
  {
    hide Cmds, SaysNow, Safe, Awaiting, LastPin, Rejections, Saids, FromSnapshot, Ordered;
    SayCore(w, d, r);
  }

  /** The number of the command just taken. */
  lemma Number(w: World, c: Conn, args: seq<Text>)
    requires Mid(w, c, args)
    ensures |Cmds(c.trace)| == c.seen && !Awaiting(c.trace)
  {}

  lemma SubmitAnswered(w: World, c: Conn, job: Job, args: seq<Text>)
    requires Mid(w, c, args) && AuthIs(w, c.trace, ToVerify)
    requires job.Password? && w.hasPolicy ==> FromSnapshot(w, c.seen - 1, job.session)
    ensures Answered(w, c, Submit(w, c, job))
  {
    hide Core, Cmds, FromSnapshot, AuthIs;
    Number(w, c, args);
    if w.accepts(c.seen - 1) {
      StartCore(w, c, job);
    } else {
      SaidAnswered(w, c, c, InvalidPassword);
    }
  }

  lemma FailAnswered(w: World, c: Conn, args: seq<Text>)
    requires Mid(w, c, args) && AuthIs(w, c.trace, AuthCase.Unknown)
    ensures Answered(w, c, Fail(c).Say(InvalidPassword))
  {
    hide Core, Cmds, AuthIs;
    FailCore(w, c);
    SaidAnswered(w, c, Fail(c), InvalidPassword);
  }

  lemma AuthAnswered(w: World, c: Conn, args: seq<Text>)
    requires Mid(w, c, args) && Is(args, "AUTH")
    ensures Answered(w, c, Auth(w, c, args))
  {
    hide Core, Cmds, Answered, Submit, Fail, Pin, UserName, B, Upper, Is, AuthRbac;
    Number(w, c, args);
    assert AuthIs(w, c.trace, AuthKind(w, c.seen - 1, args));
    if |args| != 2 && |args| != 3 {
      SaidAnswered(w, c, c, Arity);
    } else if w.hasPolicy {
      if |args| == 2 && w.isToken(args[1]) {
        SubmitAnswered(w, c, Token, args);
      } else {
        RbacAnswered(w, c, args);
      }
    } else if !w.needsPass {
      SaidAnswered(w, c, c, Ok);
    } else if UserName(args) != B("default") {
      FailAnswered(w, c, args);
    } else {
      SubmitAnswered(w, c, Password(None), args);
    }
  }

  lemma RbacAnswered(w: World, c: Conn, args: seq<Text>)
    requires Mid(w, c, args) && Is(args, "AUTH") && w.hasPolicy
    requires (|args| == 2 || |args| == 3) && !(|args| == 2 && w.isToken(args[1]))
    ensures Answered(w, c, AuthRbac(w, c, args))
  {
    hide Core, Cmds, Answered, Submit, Fail, UserName, B, Upper, Is;
    Number(w, c, args);
    assert AuthIs(w, c.trace, AuthKind(w, c.seen - 1, args));
    var user, p := UserName(args), w.policy(c.seen - 1);
    if p.None? || user !in p.value.users {
      FailAnswered(w, c, args);
    } else {
      var session := Some(Session(user, p.value.RoleFor(user)));
      if p.value.users[user].hash == [] {
        PinCore(w, c, Some(c.seen - 1), false, session);
        SaidAnswered(w, c, Pin(c, Some(c.seen - 1), false, session), Ok);
      } else {
        assert FromSnapshot(w, c.seen - 1, session);
        SubmitAnswered(w, c, Password(session), args);
      }
    }
  }

  lemma RanAnswered(w: World, c: Conn, args: seq<Text>, n: Note, r: Reply)
    requires Mid(w, c, args) && MayFollow(w, c.trace, n) && ((n.Ran? && r == Data) || (n.AdminRan? && r == Admin))
    ensures Answered(w, c, c.Note(n).Say(r))
  {
    hide Core, Cmds, MayFollow;
    RunCore(w, c, n);
    SaidAnswered(w, c, c.Note(n), r);
  }

  /** The fields the gate reads are what the trace says. */
  lemma Pins(w: World, c: Conn)
    requires Core(w, c) && c.pending.None?
    ensures !Awaiting(c.trace) && (c.authenticated <==> LastPin(c.trace).Some?)
    ensures c.authenticated ==> LastPin(c.trace).value.session == c.session
  {}

  lemma ExecuteAnswered(w: World, c: Conn, cmd: u16, arity: nat, args: seq<Text>)
    requires Mid(w, c, args) && c.authenticated && args != [] && !Is(args, "AUTH")
    requires DataCommand(args[0]) == Some((cmd, arity)) && arity >= 2
    ensures Answered(w, c, Execute(w, c, cmd, arity, args))
  {
    hide Core, Cmds, Answered, Allowed, Misused, Keys, DataCommand, Is;
    Pins(w, c);
    assert DataAt(c.trace, cmd);
    if |args| < arity {
      SaidAnswered(w, c, c, Arity);
    } else if w.hasPolicy && !Allowed(c.session, cmd, Keys(cmd, args)) {
      assert !Permitted(w, c.trace, cmd);
      SaidAnswered(w, c, c, NoPerm);
    } else if Misused(cmd, args).Some? {
      MisusedReplies(cmd, args);
      SaidAnswered(w, c, c, Misused(cmd, args).value);
    } else {
      RanAnswered(w, c, args, Ran(cmd, Keys(cmd, args)), Data);
    }
  }

  lemma MisusedReplies(cmd: u16, args: seq<Text>)
    ensures Misused(cmd, args).Some? ==> Misused(cmd, args).value in {Arity, Syntax}
  {}

  /** PING and QUIT are neither data nor admin commands. */
  lemma OpenToAll(name: Text)
    requires Upper(name) == B("PING") || Upper(name) == B("QUIT")
    ensures DataCommand(name).None? && AdminCommand(name).None?
  {
    assert B("PING")[0] == 80 && B("QUIT")[0] == 81 && B("ROLE")[0] == 82;
  }

  lemma DispatchAnswered(w: World, c: Conn, args: seq<Text>)
    requires Mid(w, c, args)
    ensures Answered(w, c, Dispatch(w, c, args))
  {
    hide Core, Cmds, Answered, Auth, Execute, Upper, B, DataCommand, AdminCommand;
    Pins(w, c);
    if args == [] {
      SaidAnswered(w, c, c, Empty);
    } else if Upper(args[0]) == B("AUTH") {
      AuthAnswered(w, c, args);
    } else if !c.authenticated && Upper(args[0]) != B("PING") && Upper(args[0]) != B("QUIT") {
      SaidAnswered(w, c, c, NoAuth);
    } else {
      if !c.authenticated { OpenToAll(args[0]); }
      GatedAnswered(w, c, args);
    }
  }

  lemma GatedAnswered(w: World, c: Conn, args: seq<Text>)
    requires Mid(w, c, args) && args != [] && Upper(args[0]) != B("AUTH")
    requires c.authenticated || (DataCommand(args[0]).None? && AdminCommand(args[0]).None?)
    requires c.authenticated || Upper(args[0]) == B("PING") || Upper(args[0]) == B("QUIT")
    ensures Answered(w, c, Dispatch(w, c, args))
  {
    DataArity(args[0]);
    hide Core, Cmds, Answered, Execute, Upper, B, DataCommand, AdminCommand;
    Pins(w, c);
    if DataCommand(args[0]).Some? {
      ExecuteAnswered(w, c, DataCommand(args[0]).value.0, DataCommand(args[0]).value.1, args);
    } else if Upper(args[0]) == B("PING") {
      SaidAnswered(w, c, c, if |args| >= 2 then Echo else Pong);
    } else if AdminCommand(args[0]).Some? {
      AdminAnswered(w, c, args, AdminCommand(args[0]).value);
    } else if Upper(args[0]) == B("QUIT") {
      QuitCore(w, c);
      SaidAnswered(w, c, c.(closing := true), Ok);
    } else {
      SaidAnswered(w, c, c, Reply.Unknown);
    }
  }

  lemma DataArity(name: Text)
    ensures DataCommand(name).Some? ==> DataCommand(name).value.1 >= 2
  {}

  lemma AdminAnswered(w: World, c: Conn, args: seq<Text>, cmd: u16)
    requires Mid(w, c, args) && c.authenticated && args != [] && !Is(args, "AUTH") && AdminCommand(args[0]) == Some(cmd)
    ensures Answered(w, c, if AdminAllowed(w, c, cmd) then c.Note(AdminRan(cmd)).Say(Admin) else c.Say(NoPerm))
  {
    hide Core, Cmds, Answered, AdminCommand, Is;
    Pins(w, c);
    assert AdminAt(c.trace, cmd);
    if AdminAllowed(w, c, cmd) {
      RanAnswered(w, c, args, AdminRan(cmd), Admin);
    } else {
      assert !AdminPermitted(w, c.trace, cmd);
      SaidAnswered(w, c, c, NoPerm);
    }
  }

  lemma QuitCore(w: World, c: Conn)
    requires Core(w, c)
    ensures Core(w, c.(closing := true))
  {
    hide Safe, Awaiting, LastPin, Rejections, Saids, Cmds, FromSnapshot, Ordered;
  }

  // ----- The stream -----

  /** The commands dispatched so far followed by those still in the buffer are those of the whole stream. */
  ghost predicate Streamed(received: seq<byte>, c: Conn) {
    var whole, rest := R.Drain(received), R.Drain(c.buf);
    whole.cmds == Cmds(c.trace) + rest.cmds && whole.tail == rest.tail && whole.bad == rest.bad
  }

  lemma StreamGrows(received: seq<byte>, c: Conn, chunk: seq<byte>)
    requires Streamed(received, c)
    ensures Streamed(received + chunk, c.(buf := c.buf + chunk))
  {
    hide R.Drain, Cmds;
    R.DrainExtend(received, chunk);
    R.DrainExtend(c.buf, chunk);
    var whole, rest := R.Drain(received), R.Drain(c.buf);
    if !whole.bad {
      var more := R.Drain(whole.tail + chunk);
      assert Cmds(c.trace) + rest.cmds + more.cmds == Cmds(c.trace) + (rest.cmds + more.cmds);
    }
  }

  lemma StreamTakes(received: seq<byte>, c: Conn, args: seq<Text>, n: nat, d: Conn)
    requires Streamed(received, c) && R.Parse(c.buf) == R.Command(args, n) && n <= |c.buf|
    requires d.buf == c.buf[n..] && Cmds(d.trace) == Cmds(c.trace) + [args]
    ensures Streamed(received, d)
  {
    hide R.Parse, Cmds;
    var rest := R.Drain(d.buf);
    assert R.Drain(c.buf).cmds == [args] + rest.cmds;
    assert Cmds(c.trace) + ([args] + rest.cmds) == Cmds(c.trace) + [args] + rest.cmds;
  }

  // ----- Every run -----

  ghost predicate Inv(w: World, received: seq<byte>, c: Conn) {
    && Core(w, c) && Streamed(received, c) && c.out == []
    && (c.closing ==> c.closed) && (!c.closed ==> Owed(c) == if c.pending.Some? then 1 else 0)
    && (!c.closed && c.pending.None? ==> Quiet(c.trace))
  }

  lemma {:induction false} ProcessInv(w: World, received: seq<byte>, c: Conn)
    requires Core(w, c) && Idle(c) && Owed(c) == 0 && Streamed(received, c) && Quiet(c.trace)
    ensures var d := Process(w, c);
            && Core(w, d) && Streamed(received, d)
            && (!d.closed ==> Owed(d) == if d.pending.Some? then 1 else 0)
            && (d.closed ==> d.out == []) && (!d.closed && d.pending.None? ==> Quiet(d.trace))
            && (!d.closed && !d.closing && d.pending.None? ==> R.Parse(d.buf).More?)
    decreases |c.buf|
  {
    hide Core, Streamed, R.Parse, Dispatch, Take;
    match R.Parse(c.buf)
    case More =>
    case Bad =>
      DroppedCore(w, c);
      StreamSame(received, c, c.(closed := true, out := []));
    case Command(args, n) =>
      TakeCore(w, c, args, n);
      var t := Take(c, args, n);
      Taken(c, args, n);
      DispatchAnswered(w, t, args);
      var d := Dispatch(w, t, args);
      StreamTakes(received, c, args, n, d);
      if d.pending.None? && !d.closing { ProcessInv(w, received, d); }
  }

  lemma Taken(c: Conn, args: seq<Text>, n: nat)
    requires n <= |c.buf|
    ensures var t := Take(c, args, n);
            t.buf == c.buf[n..] && At(t.trace) == Some(args) && t.seen == c.seen + 1 && t.out == c.out
            && t.written == c.written
            && t.pending == c.pending && t.closing == c.closing && t.closed == c.closed
  {}

  lemma DroppedCore(w: World, c: Conn)
    requires Core(w, c)
    ensures Core(w, c.(closed := true, out := []))
  {
    hide Safe, Awaiting, LastPin, Rejections, Saids, Cmds, FromSnapshot;
    assert forall i :: 0 <= i < |c.written| ==> (c.written + c.out)[i] == c.written[i];
  }

  lemma StreamSame(received: seq<byte>, c: Conn, d: Conn)
    requires Streamed(received, c) && d.buf == c.buf && Cmds(d.trace) == Cmds(c.trace)
    ensures Streamed(received, d)
  {
    hide R.Drain;
  }

  lemma FlushInv(w: World, received: seq<byte>, c: Conn)
    requires Core(w, c) && Streamed(received, c) && (c.closed ==> c.out == [])
    requires !c.closed ==> Owed(c) == if c.pending.Some? then 1 else 0
    ensures var d := Flush(c);
            && Core(w, d) && Streamed(received, d) && d.out == [] && (!c.closed && c.closing ==> d.closed)
            && (!d.closed ==> !d.closing && Owed(d) == if d.pending.Some? then 1 else 0)
            && d.pending == c.pending && d.buf == c.buf && d.trace == c.trace && (c.closed ==> d.closed)
  {
    hide Safe, Awaiting, LastPin, Rejections, Saids, Cmds, FromSnapshot, R.Drain;
    assert c.written + c.out + [] == c.written + c.out;
  }

  lemma BufCore(w: World, c: Conn, b: seq<byte>)
    requires Core(w, c)
    ensures Core(w, c.(buf := b))
  {
    hide Safe, Awaiting, LastPin, Rejections, Saids, Cmds, FromSnapshot, Ordered;
  }

  lemma ResolveInv(w: World, received: seq<byte>, c: Conn, success: bool, session: Option<Session>)
    requires Inv(w, received, c) && !c.closed && c.pending.Some? && c.seen > 0
    ensures Inv(w, received, Resolve(c, success, session))
  {
    hide Core, Cmds, Streamed, Pin, Fail, FromSnapshot, Flush, AuthIs, Awaiting;
    var job := c.pending.value;
    JobHonest(w, c);
    var good := if job.Token? then session.Some? else success;
    EndCore(w, c, good);
    var d := c.(pending := None).Note(AuthEnded(good));
    JobHonest(w, d);
    var pinned := if job.Token? then session else job.session;
    var e := if good then Pin(d, Some(c.seen - 1), job.Token?, pinned) else Fail(d);
    if good { PinCore(w, d, Some(c.seen - 1), job.Token?, pinned); } else { FailCore(w, d); }
    Fields(d, Some(c.seen - 1), job.Token?, pinned);
    assert SaysNow(w, e.trace, if good then Ok else InvalidPassword);
    SaidAnswered(w, d, e, if good then Ok else InvalidPassword);
    var said := e.Say(if good then Ok else InvalidPassword);
    StreamSame(received, c, said);
    FlushInv(w, received, said);
  }

  lemma Fields(d: Conn, auth: Option<nat>, token: bool, session: Option<Session>)
    ensures var p := Pin(d, auth, token, session);
            p.seen == d.seen && p.out == d.out && p.written == d.written && p.pending == d.pending
            && p.closed == d.closed && p.buf == d.buf && p.closing == d.closing
            && p.trace == d.trace + [Pinned(auth, token, session)]
    ensures var f := Fail(d);
            f.seen == d.seen && f.out == d.out && f.written == d.written && f.pending == d.pending
            && f.closed == d.closed && f.buf == d.buf
            && f.trace == d.trace + [Rejected]
  {}

  lemma JobHonest(w: World, c: Conn)
    requires Core(w, c)
    ensures |Cmds(c.trace)| == c.seen && (c.pending.Some? <==> Awaiting(c.trace))
    ensures c.pending.Some? && w.hasPolicy && c.pending.value.Password?
            ==> FromSnapshot(w, c.seen - 1, c.pending.value.session)
  {}

  lemma StepInv(w: World, received: seq<byte>, c: Conn, e: Event)
    requires Inv(w, received, c)
    ensures Inv(w, received + (if e.Traffic? && !c.closed then e.chunk else []), Step(w, c, e))
  {
    hide Core, Streamed, Process, Resolve, Flush;
    assert received + [] == received;
    if !c.closed {
      match e
      case Traffic(chunk) =>
        var d := c.(buf := c.buf + chunk);
        StreamGrows(received, c, chunk);
        BufCore(w, c, c.buf + chunk);
        if c.pending.None? {
          ProcessInv(w, received + chunk, d);
          FlushInv(w, received + chunk, Process(w, d));
        }
      case Verdict(success, session) =>
        if c.pending.Some? && c.seen > 0 { ResolveInv(w, received, c, success, session); }
    }
  }

  lemma OpenInv(w: World)
    ensures Inv(w, [], Open(w))
  {
    hide Core, Safe, Policy.NoPassDefault, Policy.RoleFor, B, Cmds, Rejections, Saids, LastPin;
    var c := Conn(None, false, None, 0, false, false, [], [], [], 0, []);
    BlankCore(w);
    if Open(w) != c {
      assert OpenPin(w, Open(w).session);
      assert !Awaiting(c.trace);
      PinCore(w, c, None, false, Open(w).session);
      assert Open(w) == Pin(c, None, false, Open(w).session);
    }
    StreamSame([], c, Open(w));
  }

  lemma BlankCore(w: World)
    ensures var c := Conn(None, false, None, 0, false, false, [], [], [], 0, []); Core(w, c) && Streamed([], c)
  {
    assert R.Drain([]).cmds == [];
  }

  lemma {:induction false} RunInv(w: World, es: seq<Event>)
    ensures Inv(w, Received(w, es), Run(w, es))
  {
    if es == [] {
      OpenInv(w);
    } else {
      RunInv(w, es[..|es| - 1]);
      hide Inv, Step;
      StepInv(w, Received(w, es[..|es| - 1]), Run(w, es[..|es| - 1]), es[|es| - 1]);
    }
  }

  /**
   In every reachable state: every event was permitted by what came before it; at most three
   rejections are on record and the third closes; written replies answer commands 0, 1, 2, ... in
   order, all but an AUTH in flight; and the commands dispatched are a prefix of those in the
   stream, however it was cut into reads.
   */
  lemma ConnectionSafe(w: World, es: seq<Event>)
    ensures var c := Run(w, es);
            && (forall i :: 0 <= i < |c.trace| ==> MayFollow(w, c.trace[..i], c.trace[i]))
            && Rejections(c.trace) <= MAX_AUTH_FAILS && (Rejections(c.trace) == MAX_AUTH_FAILS ==> c.closed)
            && |c.written| <= |Saids(c.trace)|
            && (forall i :: 0 <= i < |c.written| ==> c.written[i] == (i, Saids(c.trace)[i]))
            && (!c.closed ==> |c.written| == |Saids(c.trace)| == |Cmds(c.trace)| - if Awaiting(c.trace) then 1 else 0)
            && Cmds(c.trace) <= R.Drain(Received(w, es)).cmds
  {
    RunInv(w, es);
    var c := Run(w, es);
    hide Safe, Awaiting, Rejections, Saids, Cmds, MayFollow, LastPin, R.Drain, Run, Received;
    forall i | 0 <= i < |c.trace| ensures MayFollow(w, c.trace[..i], c.trace[i]) { SafeAt(w, c.trace, i); }
    assert c.written + c.out == c.written;
  }

  /**
   The gate in plain words: whenever a data handler ran, in any run, no verdict was awaited, a
   session had been pinned, and with a policy that session's role allowed the command on every key.
   */
  lemma DataRunsAllowed(w: World, es: seq<Event>, i: nat)
    requires i < |Run(w, es).trace| && Run(w, es).trace[i].Ran?
    ensures var t := Run(w, es).trace;
            var before := t[..i];
            && !Awaiting(before) && LastPin(before).Some?
            && (w.hasPolicy ==> Allowed(LastPin(before).value.session, t[i].cmd, t[i].keys))
  {
    hide Awaiting, LastPin, Allowed, Run;
    ConnectionSafe(w, es);
    assert MayFollow(w, Run(w, es).trace[..i], Run(w, es).trace[i]);
  }

  /** What a verdict makes of a connection that awaits it. */
  ghost predicate Honours(w: World, c: Conn, success: bool, session: Option<Session>, d: Conn)
    requires c.pending.Some?
  {
    var token := c.pending.value.Token?;
    var good := if token then session.Some? else success;
    && d.pending.None? && c.seen > 0
    && if good then
         && d.authenticated && !d.closed && Rejections(d.trace) == Rejections(c.trace)
         && (token ==> d.session == session)
         && (!token && w.hasPolicy ==> FromSnapshot(w, c.seen - 1, d.session))
       else
         && d.authenticated == c.authenticated && d.session == c.session
         && Rejections(d.trace) == Rejections(c.trace) + 1
         && (d.closed <==> Rejections(d.trace) == MAX_AUTH_FAILS)
  }

  /**
   In any run, a verdict ends the wait. A success pins the token's session, or the one the policy
   in force at the AUTH gave its user, whatever became of the policy since, and keeps the connection
   open. A failure keeps the session, counts once, and closes exactly at the third.
   */
  lemma VerdictHonoured(w: World, es: seq<Event>, success: bool, session: Option<Session>)
    requires var c := Run(w, es); c.pending.Some? && !c.closed
    ensures Honours(w, Run(w, es), success, session, Run(w, es + [Verdict(success, session)]))
  {
    var more := es + [Verdict(success, session)];
    assert more[..|es|] == es;
    RunInv(w, es);
    RunInv(w, more);
    Unfold(w, more);
    ResolveHonest(w, Received(w, es), Received(w, more), Run(w, es), success, session);
  }

  lemma ResolveHonest(
      w: World, received: seq<byte>, later: seq<byte>, c: Conn, success: bool, session: Option<Session>)
    requires Inv(w, received, c) && c.pending.Some? && !c.closed
    requires c.seen > 0 ==> Inv(w, later, Resolve(c, success, session))
    ensures c.seen == |Cmds(c.trace)| > 0
    ensures Honours(w, c, success, session, Resolve(c, success, session))
  {
    hide Safe, Awaiting, LastPin, Cmds, Saids, FromSnapshot, R.Drain, Quiet, Rejections, Streamed, Ordered;
    assert c.seen > 0;
  }

  /**
   A verdict was taken since the last read: the wake that the source issues after it, a read of
   no bytes, has not come yet.
   */
  predicate WakeOwed(w: World, es: seq<Event>) {
    es != [] && es[|es| - 1].Verdict?
    && (WakeOwed(w, es[..|es| - 1]) || (!Run(w, es[..|es| - 1]).closed && Run(w, es[..|es| - 1]).pending.Some?))
  }

  /** In every run, an open connection that awaits no verdict and no wake has dispatched every complete command. */
  lemma {:induction false} NothingHeldBack(w: World, es: seq<Event>)
    requires !Run(w, es).closed && Run(w, es).pending.None? && !WakeOwed(w, es)
    ensures Cmds(Run(w, es).trace) == R.Drain(Received(w, es)).cmds && !R.Drain(Received(w, es)).bad
  {
    if es == [] { return; }
    var init, e := es[..|es| - 1], es[|es| - 1];
    if e.Verdict? {
      assert Run(w, es) == Run(w, init) && Received(w, es) == Received(w, init);
      NothingHeldBack(w, init);
    } else {
      ReadDispatches(w, es);
    }
  }

  /** Whatever happened before, the wake leaves nothing undispatched. */
  lemma WakeDispatches(w: World, es: seq<Event>)
    requires var woken := Run(w, es + [Traffic([])]); !woken.closed && woken.pending.None?
    ensures var woken := es + [Traffic([])];
            Cmds(Run(w, woken).trace) == R.Drain(Received(w, es)).cmds && !R.Drain(Received(w, es)).bad
  {
    var woken := es + [Traffic([])];
    assert woken[..|woken| - 1] == es;
    ReadDispatches(w, woken);
    hide Run, Cmds;
    assert Received(w, woken) == Received(w, es) + [] == Received(w, es);
  }

  lemma ReadDispatches(w: World, es: seq<Event>)
    requires es != [] && es[|es| - 1].Traffic? && !Run(w, es).closed && Run(w, es).pending.None?
    ensures Cmds(Run(w, es).trace) == R.Drain(Received(w, es)).cmds && !R.Drain(Received(w, es)).bad
  {
    var n := |es| - 1;
    RunInv(w, es);
    RunInv(w, es[..n]);
    var c, received := Run(w, es[..n]), Received(w, es[..n]);
    hide Core, Cmds, Process, Received, Run;
    assert Run(w, es) == Step(w, c, es[n]) by { Unfold(w, es); }
    var d := c.(buf := c.buf + es[n].chunk);
    if !c.closed && c.pending.None? {
      StreamGrows(received, c, es[n].chunk);
      BufCore(w, c, d.buf);
      ProcessInv(w, received + es[n].chunk, d);
    }
  }

  lemma Unfold(w: World, es: seq<Event>)
    requires es != []
    ensures Run(w, es) == Step(w, Run(w, es[..|es| - 1]), es[|es| - 1])
  {}
}
