/**
 One RESP connection as the event loop drives it (internal/resp/server.go,
 internal/command/command.go): bytes arrive, commands are taken off the buffer and dispatched,
 AUTH is verified elsewhere and its verdict comes back as an event of its own.
 */
module RespRun {
  import opened Bytes
  import opened Bitset
  import opened Rbac
  import opened Policy
  import R = Resp

  const MAX_AUTH_FAILS: nat := 3

  /**
   What the connection does not decide: the snapshot the n-th command sees, whether the worker
   pool takes its job, and which secrets are bearer tokens.
   */
  datatype World = World(
    hasPolicy: bool, atOpen: Option<Policy>, policy: nat -> Option<Policy>, accepts: nat -> bool,
    isToken: Text -> bool, needsPass: bool)

  /** A verification in flight; a token's session is only known at the verdict. */
  datatype Job = Password(session: Option<Session>) | Token

  datatype Reply =
    | Ok | Pong | Echo | Empty | Arity | Syntax | NoAuth | InvalidPassword | NoPerm | Data | Admin | Unknown

  /** What happened, in order. AUTH number n pinned a session; n is 0-based, none at open. */
  datatype Note =
    | Arrived(args: seq<Text>)
    | Ran(cmd: u16, keys: seq<Text>)
    | AdminRan(cmd: u16)
    | AuthStarted
    | AuthEnded(good: bool)
    | Pinned(auth: Option<nat>, token: bool, session: Option<Session>)
    | Rejected
    | Said(reply: Reply)

  datatype Conn = Conn(
    pending: Option<Job>, authenticated: bool, session: Option<Session>, fails: nat, closing: bool, closed: bool,
    buf: seq<byte>, out: seq<(nat, Reply)>, written: seq<(nat, Reply)>, seen: nat, trace: seq<Note>)
  {
    function Note(n: Note): Conn { this.(trace := trace + [n]) }

    /** The reply to the command last taken off the buffer. */
    function Say(r: Reply): Conn
      requires seen > 0
    {
      this.(out := out + [(seen - 1, r)]).Note(Said(r))
    }
  }

  /** connectionAuth. */
  function Open(w: World): Conn {
    var c := Conn(None, false, None, 0, false, false, [], [], [], 0, []);
    if w.hasPolicy then
      if w.atOpen.Some? && w.atOpen.value.NoPassDefault() then
        Pin(c, None, false, Some(Session(B("default"), w.atOpen.value.RoleFor(B("default")))))
      else c
    else if w.needsPass then c else Pin(c, None, false, None)
  }

  function Pin(c: Conn, auth: Option<nat>, token: bool, session: Option<Session>): Conn {
    c.(authenticated := true, session := session).Note(Pinned(auth, token, session))
  }

  // ----- Dispatch -----

  /** GET, SET and DEL with their least number of arguments. */
  function DataCommand(name: Text): Option<(u16, nat)> {
    if Upper(name) == B("GET") then Some((GET, 2))
    else if Upper(name) == B("SET") then Some((SET, 3))
    else if Upper(name) == B("DEL") then Some((DEL, 2))
    else None
  }

  function AdminCommand(name: Text): Option<u16> {
    if Upper(name) == B("COMMAND") then Some(COMMAND)
    else if Upper(name) == B("ROLE") then Some(ROLE)
    else if Upper(name) == B("ACL") then Some(ACL)
    else None
  }

  function Keys(cmd: u16, args: seq<Text>): seq<Text>
    requires |args| >= 2
  {
    if cmd == DEL then args[1..] else args[1..2]
  }

  predicate Allowed(session: Option<Session>, cmd: u16, keys: seq<Text>) {
    session.Some? && forall i :: 0 <= i < |keys| ==> session.value.IsAllowed(cmd, keys[i])
  }

  /** Why a handler refuses its arguments before touching the store. */
  function Misused(cmd: u16, args: seq<Text>): Option<Reply> {
    if cmd == GET && |args| != 2 then Some(Arity)
    else if cmd == SET && |args| != 3 && |args| != 5 then Some(Arity)
    else if cmd == SET && R.SetTtl(args).None? then Some(Syntax)
    else None
  }

  /** command.Execute: arity, the gate on every key, then the handler. */
  function Execute(w: World, c: Conn, cmd: u16, arity: nat, args: seq<Text>): (d: Conn)
    requires c.seen > 0 && arity >= 2
    ensures d.buf == c.buf && d.seen == c.seen && d.closed == c.closed
  {
    if |args| < arity then c.Say(Arity)
    else if w.hasPolicy && !Allowed(c.session, cmd, Keys(cmd, args)) then c.Say(NoPerm)
    else if Misused(cmd, args).Some? then c.Say(Misused(cmd, args).value)
    else c.Note(Ran(cmd, Keys(cmd, args))).Say(Data)
  }

  /** authFailed: counted, and the third closes the connection. */
  function Fail(c: Conn): Conn {
    c.(fails := c.fails + 1, closing := c.closing || c.fails + 1 >= MAX_AUTH_FAILS).Note(Rejected)
  }

  /** A saturated pool refuses at once, without counting it. */
  function Submit(w: World, c: Conn, job: Job): (d: Conn)
    requires c.seen > 0
    ensures d.buf == c.buf && d.seen == c.seen && d.closed == c.closed
  {
    if w.accepts(c.seen - 1) then c.(pending := Some(job)).Note(AuthStarted) else c.Say(InvalidPassword)
  }

  function UserName(args: seq<Text>): Text
    requires |args| >= 2
  {
    if |args| == 3 then args[1] else B("default")
  }

  function Auth(w: World, c: Conn, args: seq<Text>): (d: Conn)
    requires c.seen > 0
    ensures d.buf == c.buf && d.seen == c.seen && d.closed == c.closed
  {
    if |args| != 2 && |args| != 3 then c.Say(Arity)
    else if w.hasPolicy then
      if |args| == 2 && w.isToken(args[1]) then Submit(w, c, Token) else AuthRbac(w, c, args)
    else if !w.needsPass then c.Say(Ok)
    else if UserName(args) != B("default") then Fail(c).Say(InvalidPassword)
    else Submit(w, c, Password(None))
  }

  function AuthRbac(w: World, c: Conn, args: seq<Text>): (d: Conn)
    requires c.seen > 0 && |args| >= 2
    ensures d.buf == c.buf && d.seen == c.seen && d.closed == c.closed
  {
    var user, p := UserName(args), w.policy(c.seen - 1);
    if p.None? || user !in p.value.users then Fail(c).Say(InvalidPassword)
    else
      var session := Some(Session(user, p.value.RoleFor(user)));
      if p.value.users[user].hash == [] then Pin(c, Some(c.seen - 1), false, session).Say(Ok)
      else Submit(w, c, Password(session))
  }

  /** authorizedCmd: no keys, only the command bit. */
  predicate AdminAllowed(w: World, c: Conn, cmd: u16) {
    !w.hasPolicy || (c.session.Some? && c.session.value.AllowsCommand(cmd))
  }

  function Dispatch(w: World, c: Conn, args: seq<Text>): (d: Conn)
    requires c.seen > 0
    ensures d.buf == c.buf && d.seen == c.seen && d.closed == c.closed
  {
    if args == [] then c.Say(Empty)
    else if Upper(args[0]) == B("AUTH") then Auth(w, c, args)
    else if !c.authenticated && Upper(args[0]) != B("PING") && Upper(args[0]) != B("QUIT") then c.Say(NoAuth)
    else if DataCommand(args[0]).Some? then
      Execute(w, c, DataCommand(args[0]).value.0, DataCommand(args[0]).value.1, args)
    else if Upper(args[0]) == B("PING") then c.Say(if |args| >= 2 then Echo else Pong)
    else if AdminCommand(args[0]).Some? then
      var cmd := AdminCommand(args[0]).value;
      if AdminAllowed(w, c, cmd) then c.Note(AdminRan(cmd)).Say(Admin) else c.Say(NoPerm)
    else if Upper(args[0]) == B("QUIT") then c.(closing := true).Say(Ok)
    else c.Say(Unknown)
  }

  /** A command comes off the front of the buffer. */
  function Take(c: Conn, args: seq<Text>, n: nat): Conn
    requires n <= |c.buf|
  {
    c.(buf := c.buf[n..], seen := c.seen + 1).Note(Arrived(args))
  }

  /** processBuffer: it stops for more bytes, a verdict, a close, or a protocol error, which drops the replies. */
  function Process(w: World, c: Conn): Conn
    decreases |c.buf|
  {
    match R.Parse(c.buf)
    case More => c
    case Bad => c.(closed := true, out := [])
    case Command(args, n) =>
      var d := Dispatch(w, Take(c, args, n), args);
      if d.pending.Some? || d.closing then d else Process(w, d)
  }

  function Flush(c: Conn): Conn {
    if c.closed then c else c.(written := c.written + c.out, out := [], closed := c.closing)
  }

  // ----- Events -----

  datatype Event = Traffic(chunk: seq<byte>) | Verdict(success: bool, session: Option<Session>)

  function Step(w: World, c: Conn, e: Event): Conn {
    if c.closed then c
    else
      match e
      case Traffic(chunk) =>
        var d := c.(buf := c.buf + chunk);
        if c.pending.Some? then d else Flush(Process(w, d))
      case Verdict(success, session) =>
        if c.pending.None? || c.seen == 0 then c else Resolve(c, success, session)
  }

  /** The worker's verdict; for a token, success is having a session. */
  function Resolve(c: Conn, success: bool, session: Option<Session>): Conn
    requires c.pending.Some? && c.seen > 0
  {
    var good := if c.pending.value.Token? then session.Some? else success;
    var d := c.(pending := None).Note(AuthEnded(good));
    var resolved := if c.pending.value.Token? then session else c.pending.value.session;
    Flush(
      if good then Pin(d, Some(c.seen - 1), c.pending.value.Token?, resolved).Say(Ok)
      else Fail(d).Say(InvalidPassword))
  }

  function Run(w: World, es: seq<Event>): Conn {
    if es == [] then Open(w) else Step(w, Run(w, es[..|es| - 1]), es[|es| - 1])
  }

  /** Every byte that arrived while the connection was open. */
  function Received(w: World, es: seq<Event>): seq<byte> {
    if es == [] then []
    else
      var e, before := es[|es| - 1], es[..|es| - 1];
      Received(w, before) + if e.Traffic? && !Run(w, before).closed then e.chunk else []
  }
}
