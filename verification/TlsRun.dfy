/**
 Two TLS 1.3 endpoints and the byte streams between them, run in any interleaving of writes,
 key updates and deliveries (sections 4.6.3 and 5 of RFC 8446). Each end steps by its own rule,
 the writer past what it sealed and the reader past what it opened. The theorem is lock-step:
 every record is opened with the secret and the sequence number it was sealed with.
 */
module TlsRun {
  import opened Bytes
  import opened TlsRecord
  import T = TlsConn

  datatype Msg = Msg(typ: byte, body: seq<byte>)
  {
    predicate Update() { typ == HANDSHAKE && (body == KeyUpdate(true) || body == KeyUpdate(false)) }

    /** What the model's endpoints send: application data, or a key update. */
    predicate Valid() { 0 < |body| <= MAX_PLAIN && (typ == APPLICATION_DATA || Update()) }
  }

  /** The writer's state after sealing ms, and the reader's after opening them. */
  function Wrote(s: Suite, h: Half, ms: seq<Msg>): Half {
    if ms == [] then h
    else
      var m := ms[|ms| - 1];
      AfterSend(s, Wrote(s, h, ms[..|ms| - 1]), m.typ, m.body)
  }

  function Read(s: Suite, h: Half, ms: seq<Msg>): Half {
    if ms == [] then h
    else
      var m := ms[|ms| - 1];
      AfterReceive(s, Read(s, h, ms[..|ms| - 1]), m.typ, m.body)
  }

  /** One direction. sent and got are histories; got also says at which state each record was opened. */
  datatype Channel = Channel(
    start: Half, out: Half, reader: Half, wire: seq<byte>, sent: seq<Msg>, got: seq<(Half, Msg)>, broken: bool)

  function Open(h: Half): Channel { Channel(h, h, h, [], [], [], false) }

  function Send(s: Suite, c: Channel, m: Msg): Channel
    requires s.Lawful() && m.Valid()
  {
    c.(wire := c.wire + SealRecord(s, c.out, m.typ, m.body), out := AfterSend(s, c.out, m.typ, m.body),
       sent := c.sent + [m])
  }

  function SendAll(s: Suite, c: Channel, frags: seq<seq<byte>>): Channel
    requires s.Lawful() && Fragmented(frags)
  {
    if frags == [] then c
    else Send(s, SendAll(s, c, frags[..|frags| - 1]), Msg(APPLICATION_DATA, frags[|frags| - 1]))
  }

  /** Read one record: cut it off, open it at the reading half's state, and act on a key update. */
  function Receive(s: Suite, c: Channel): Channel
    requires s.Lawful()
  {
    match Take(c.wire)
    case NeedMore => c
    case BadRecord(_) => c.(broken := true)
    case Record(b, rest) =>
      match OpenRecord(s, c.reader, b)
      case Fragment(typ, data) =>
        c.(wire := rest, reader := AfterReceive(s, c.reader, typ, data), got := c.got + [(c.reader, Msg(typ, data))])
      case Ignored(_) => c.(wire := rest)
      case _ => c.(broken := true)
  }

  // ----- The two ends step alike -----

  /** The reader's rule and the writer's rule agree on every message an endpoint sends. */
  lemma EndsAgree(s: Suite, h: Half, m: Msg)
    requires m.Valid()
    ensures AfterReceive(s, h, m.typ, m.body) == AfterSend(s, h, m.typ, m.body)
  {
    ReadKeyUpdateIff(m.body, true);
    ReadKeyUpdateIff(m.body, false);
  }

  predicate AllValid(ms: seq<Msg>) { forall i :: 0 <= i < |ms| ==> ms[i].Valid() }

  lemma {:induction false} HistoriesAgree(s: Suite, h: Half, ms: seq<Msg>)
    requires AllValid(ms)
    ensures Read(s, h, ms) == Wrote(s, h, ms)
  {
    hide AfterSend, AfterReceive, Msg.Valid;
    if ms != [] {
      HistoriesAgree(s, h, ms[..|ms| - 1]);
      EndsAgree(s, Wrote(s, h, ms[..|ms| - 1]), ms[|ms| - 1]);
    }
  }

  // ----- The direction's invariant -----

  /** The records of ms from number k on, as bytes. */
  function Sealed(s: Suite, h: Half, ms: seq<Msg>, k: nat): seq<byte>
    requires s.Lawful() && k <= |ms| && AllValid(ms)
  {
    if |ms| == k then []
    else
      var n := |ms| - 1;
      Sealed(s, h, ms[..n], k) + SealRecord(s, Wrote(s, h, ms[..n]), ms[n].typ, ms[n].body)
  }

  ghost predicate InStep(s: Suite, c: Channel)
    requires s.Lawful()
  {
    && !c.broken && |c.got| <= |c.sent| && AllValid(c.sent)
    && c.out == Wrote(s, c.start, c.sent)
    && c.reader == Read(s, c.start, c.sent[..|c.got|])
    && c.wire == Sealed(s, c.start, c.sent, |c.got|)
    && forall i :: 0 <= i < |c.got| ==> c.got[i] == (Wrote(s, c.start, c.sent[..i]), c.sent[i])
  }

  lemma SendInStep(s: Suite, c: Channel, m: Msg)
    requires s.Lawful() && InStep(s, c) && m.Valid()
    ensures InStep(s, Send(s, c, m))
  {
    hide SealRecord, AfterSend, AfterReceive, Msg.Valid;
    var sent := c.sent + [m];
    assert sent[..|c.sent|] == c.sent;
    assert sent[..|c.got|] == c.sent[..|c.got|];
    forall i | 0 <= i < |c.got| ensures sent[..i] == c.sent[..i] {}
  }

  /** A fragmented write: the bytes and the state that writeRecordLocked leaves. */
  lemma {:induction false} SendAllInStep(s: Suite, c: Channel, frags: seq<seq<byte>>)
    requires s.Lawful() && InStep(s, c) && Fragmented(frags)
    ensures var d := SendAll(s, c, frags); InStep(s, d) && d.start == c.start
    ensures SendAll(s, c, frags).out == Half(c.out.secret, c.out.count + |frags|)
    ensures SendAll(s, c, frags).wire == c.wire + SealAll(s, c.out, APPLICATION_DATA, frags)
    ensures SendAll(s, c, frags).got == c.got && SendAll(s, c, frags).sent == c.sent + Messages(frags)
  {
    hide InStep, SealRecord;
    if frags != [] {
      var k := |frags| - 1;
      SendAllInStep(s, c, frags[..k]);
      var d := SendAll(s, c, frags[..k]);
      var m := Msg(APPLICATION_DATA, frags[k]);
      SendInStep(s, d, m);
      Regroup(c.wire, SealAll(s, c.out, APPLICATION_DATA, frags[..k]), SealRecord(s, d.out, m.typ, m.body));
    }
  }

  lemma Regroup(a: seq<byte>, b: seq<byte>, c: seq<byte>)
    ensures a + b + c == a + (b + c)
  {}

  function Messages(frags: seq<seq<byte>>): seq<Msg> {
    seq(|frags|, i requires 0 <= i < |frags| => Msg(APPLICATION_DATA, frags[i]))
  }

  /** The next record on the wire is the next message, sealed where the writer then stood. */
  lemma {:induction false} SealedHead(s: Suite, h: Half, ms: seq<Msg>, k: nat)
    requires s.Lawful() && k < |ms| && AllValid(ms)
    ensures Sealed(s, h, ms, k) == SealRecord(s, Wrote(s, h, ms[..k]), ms[k].typ, ms[k].body) + Sealed(s, h, ms, k + 1)
  {
    hide SealRecord, Wrote;
    assert ms[k].Valid();
    var n := |ms| - 1;
    if k == n {
      assert ms[..n] == ms[..k];
    } else {
      SealedHead(s, h, ms[..n], k);
      assert ms[..n][..k] == ms[..k];
      Regroup(SealRecord(s, Wrote(s, h, ms[..k]), ms[k].typ, ms[k].body), Sealed(s, h, ms[..n], k + 1),
              SealRecord(s, Wrote(s, h, ms[..n]), ms[n].typ, ms[n].body));
    }
  }

  lemma ReceiveNext(s: Suite, c: Channel)
    requires s.Lawful() && InStep(s, c) && |c.got| < |c.sent|
    ensures var m := c.sent[|c.got|];
            && c.reader == Wrote(s, c.start, c.sent[..|c.got|])
            && Receive(s, c) == c.(wire := Sealed(s, c.start, c.sent, |c.got| + 1),
                                   reader := AfterReceive(s, c.reader, m.typ, m.body), got := c.got + [(c.reader, m)])
  {
    hide SealRecord, OpenRecord, Take, AfterSend, AfterReceive, Sealed, Wrote, Read;
    var k := |c.got|;
    var m := c.sent[k];
    assert m.Valid();
    HistoriesAgree(s, c.start, c.sent[..k]);
    SealedHead(s, c.start, c.sent, k);
    TakeSealed(s, c.reader, m.typ, m.body, Sealed(s, c.start, c.sent, k + 1));
    OpenSeal(s, c.reader, m.typ, m.body);
  }

  /** A delivery on a direction in step opens the next message, and the direction stays in step. */
  lemma ReceiveInStep(s: Suite, c: Channel)
    requires s.Lawful() && InStep(s, c) && |c.got| < |c.sent|
    ensures var d := Receive(s, c);
            && InStep(s, d) && d.got == c.got + [(c.reader, c.sent[|c.got|])]
            && d.sent == c.sent && d.out == c.out && d.start == c.start
  {
    hide Receive, AfterSend, AfterReceive, Sealed, Msg.Valid;
    ReceiveNext(s, c);
    assert c.sent[..|c.got| + 1][..|c.got|] == c.sent[..|c.got|];
  }

  /** With nothing to deliver the wire is empty, and conversely; then both ends stand at the same state. */
  lemma DrainedIff(s: Suite, c: Channel)
    requires s.Lawful() && InStep(s, c)
    ensures c.wire == [] <==> |c.got| == |c.sent|
    ensures c.wire == [] ==> c.reader == c.out
  {
    if |c.got| < |c.sent| {
      assert c.sent[|c.got|].Valid();
      SealedHead(s, c.start, c.sent, |c.got|);
    } else {
      assert c.sent[..|c.got|] == c.sent;
      HistoriesAgree(s, c.start, c.sent);
    }
  }

  // ----- Nonces over a run -----

  function Updates(ms: seq<Msg>): nat {
    if ms == [] then 0 else Updates(ms[..|ms| - 1]) + if ms[|ms| - 1].Update() then 1 else 0
  }

  /** The traffic secret after n updates. */
  function NthSecret(s: Suite, secret: Secret, n: nat): Secret {
    if n == 0 then secret else s.next(NthSecret(s, secret, n - 1))
  }

  /** The key schedule does not come back to a secret within the first n updates. */
  ghost predicate SecretsDiffer(s: Suite, secret: Secret, n: nat) {
    forall i, j :: 0 <= i < j <= n ==> NthSecret(s, secret, i) != NthSecret(s, secret, j)
  }

  /** The hypothesis is met by a lawful suite, for any number of updates. */
  lemma SecretsCanDiffer(secret: Secret, n: nat)
    ensures Example().Lawful() && SecretsDiffer(Example(), secret, n)
  {
    ExampleIsLawful();
    forall i, j | 0 <= i < j <= n ensures NthSecret(Example(), secret, i) != NthSecret(Example(), secret, j) {
      SecretLength(secret, i);
      SecretLength(secret, j);
    }
  }

  lemma {:induction false} SecretLength(secret: Secret, n: nat)
    ensures |NthSecret(Example(), secret, n)| == |secret| + n
  {
    if n > 0 { SecretLength(secret, n - 1); }
  }

  lemma {:induction false} SecretAt(s: Suite, h: Half, ms: seq<Msg>)
    ensures Wrote(s, h, ms).secret == NthSecret(s, h.secret, Updates(ms))
  {
    if ms != [] { SecretAt(s, h, ms[..|ms| - 1]); }
  }

  /** Going on, either an update lies between, or the count under the one secret has grown. */
  lemma {:induction false} CountGrows(s: Suite, h: Half, ms: seq<Msg>, i: nat)
    requires i < |ms|
    ensures Updates(ms[..i]) <= Updates(ms)
    ensures Updates(ms[..i]) == Updates(ms) ==> Wrote(s, h, ms[..i]).count < Wrote(s, h, ms).count
  {
    var n := |ms| - 1;
    if i < n {
      CountGrows(s, h, ms[..n], i);
      assert ms[..n][..i] == ms[..i];
    }
  }

  lemma {:induction false} UpdatesGrow(ms: seq<Msg>, k: nat)
    requires k <= |ms|
    ensures Updates(ms[..k]) <= Updates(ms)
  {
    if k < |ms| {
      UpdatesGrow(ms[..|ms| - 1], k);
      assert ms[..|ms| - 1][..k] == ms[..k];
    } else {
      assert ms[..k] == ms;
    }
  }

  /**
   Under one traffic secret all nonces are distinct: two records of a direction never share both
   the secret and the nonce they were sealed with, as long as successive secrets differ.
   */
  lemma NoncesDistinct(s: Suite, h: Half, ms: seq<Msg>, i: nat, j: nat)
    requires s.Lawful() && i < j < |ms| && SecretsDiffer(s, h.secret, Updates(ms))
    requires Wrote(s, h, ms[..i]).count < U64 && Wrote(s, h, ms[..j]).count < U64
    ensures var a, b := Wrote(s, h, ms[..i]), Wrote(s, h, ms[..j]);
            a.secret != b.secret || Nonce(s, a) != Nonce(s, b)
  {
    hide Nonce, Wrote, Updates, NthSecret;
    var a, b := Wrote(s, h, ms[..i]), Wrote(s, h, ms[..j]);
    SecretAt(s, h, ms[..i]);
    SecretAt(s, h, ms[..j]);
    CountGrows(s, h, ms[..j], i);
    assert ms[..j][..i] == ms[..i];
    UpdatesGrow(ms, j);
    if a.secret == b.secret && Nonce(s, a) == Nonce(s, b) { NonceInjective(s, a, b); }
  }

  // ----- The two endpoints -----

  /** up carries client to server, down server to client. */
  datatype Link = Link(up: Channel, down: Channel)
  {
    function Dir(upward: bool): Channel { if upward then up else down }
    function With(upward: bool, c: Channel): Link { if upward then this.(up := c) else this.(down := c) }
  }

  datatype Event =
    | Write(upward: bool, frags: seq<seq<byte>>)
    | Rekey(upward: bool, requested: bool)
    | Deliver(upward: bool)

  /** A delivered key update that asks for one is answered at once in the other direction. */
  function Do(s: Suite, l: Link, e: Event): Link
    requires s.Lawful() && Enabled(l, e)
  {
    match e
    case Write(upward, frags) => l.With(upward, SendAll(s, l.Dir(upward), frags))
    case Rekey(upward, requested) => l.With(upward, Send(s, l.Dir(upward), Msg(HANDSHAKE, KeyUpdate(requested))))
    case Deliver(upward) =>
      var c := Receive(s, l.Dir(upward));
      var m := l.With(upward, c);
      if |c.got| > |l.Dir(upward).got| && c.got[|c.got| - 1].1 == Msg(HANDSHAKE, KeyUpdate(true))
      then m.With(!upward, Send(s, m.Dir(!upward), Msg(HANDSHAKE, KeyUpdate(false))))
      else m
  }

  /** Writes are cut as writeRecordLocked cuts them, and no sequence number wraps. */
  predicate Enabled(l: Link, e: Event) {
    match e
    case Write(upward, frags) => Fragmented(frags) && l.Dir(upward).out.count + |frags| < U64
    case Rekey(upward, _) => l.Dir(upward).out.count + 1 < U64
    case Deliver(upward) => l.Dir(upward).wire != [] && l.Dir(!upward).out.count + 1 < U64
  }

  ghost predicate Legal(s: Suite, l: Link, es: seq<Event>)
    requires s.Lawful()
    decreases |es|, 0
  {
    es == [] || (Legal(s, l, es[..|es| - 1]) && Enabled(Run(s, l, es[..|es| - 1]), es[|es| - 1]))
  }

  ghost function Run(s: Suite, l: Link, es: seq<Event>): Link
    requires s.Lawful() && Legal(s, l, es)
    decreases |es|, 1
  {
    if es == [] then l else Do(s, Run(s, l, es[..|es| - 1]), es[|es| - 1])
  }

  ghost predicate LinkInStep(s: Suite, l: Link)
    requires s.Lawful()
  {
    InStep(s, l.up) && InStep(s, l.down)
  }

  /** The application bytes in a history, and those a run wrote in one direction. */
  function Data(ms: seq<Msg>): seq<byte> {
    if ms == [] then []
    else Data(ms[..|ms| - 1]) + if ms[|ms| - 1].typ == APPLICATION_DATA then ms[|ms| - 1].body else []
  }

  function Written(es: seq<Event>, upward: bool): seq<byte> {
    if es == [] then []
    else
      var e := es[|es| - 1];
      Written(es[..|es| - 1], upward) + if e.Write? && e.upward == upward then Concat(e.frags) else []
  }

  function Bodies(got: seq<(Half, Msg)>): seq<Msg> { seq(|got|, i requires 0 <= i < |got| => got[i].1) }

  lemma {:induction false} DataOfMessages(ms: seq<Msg>, frags: seq<seq<byte>>)
    ensures Data(ms + Messages(frags)) == Data(ms) + Concat(frags)
  {
    hide Data, Messages;
    if frags == [] {
      assert ms + Messages(frags) == ms by { NoMessages(); }
    } else {
      var k := |frags| - 1;
      var m := Msg(APPLICATION_DATA, frags[k]);
      DataOfMessages(ms, frags[..k]);
      DataSnoc(ms + Messages(frags[..k]), m);
      MessagesSnoc(ms, frags);
      assert (Data(ms) + Concat(frags[..k])) + frags[k] == Data(ms) + (Concat(frags[..k]) + frags[k]);
    }
  }

  lemma NoMessages()
    ensures Messages([]) == []
  {}

  lemma MessagesSnoc(ms: seq<Msg>, frags: seq<seq<byte>>)
    requires frags != []
    ensures var k := |frags| - 1;
            ms + Messages(frags) == (ms + Messages(frags[..k])) + [Msg(APPLICATION_DATA, frags[k])]
  {
    var k := |frags| - 1;
    assert Messages(frags) == Messages(frags[..k]) + [Msg(APPLICATION_DATA, frags[k])];
  }

  lemma DataSnoc(ms: seq<Msg>, m: Msg)
    ensures Data(ms + [m]) == Data(ms) + if m.typ == APPLICATION_DATA then m.body else []
  {
    assert (ms + [m])[..|ms|] == ms;
  }

  lemma DoInStep(s: Suite, l: Link, e: Event)
    requires s.Lawful() && LinkInStep(s, l) && Enabled(l, e)
    ensures var m := Do(s, l, e);
            && LinkInStep(s, m)
            && (forall upward :: m.Dir(upward).start == l.Dir(upward).start)
            && (forall upward :: Data(m.Dir(upward).sent) ==
                                 Data(l.Dir(upward).sent) +
                                 if e.Write? && e.upward == upward then Concat(e.frags) else [])
  {
    hide InStep, Send, SendAll, Receive, Data, Concat, Fragmented;
    match e
    case Write(upward, frags) =>
      SendAllInStep(s, l.Dir(upward), frags);
      DataOfMessages(l.Dir(upward).sent, frags);
    case Rekey(upward, requested) =>
      SendUpdate(s, l.Dir(upward), requested);
    case Deliver(upward) =>
      var c := l.Dir(upward);
      DrainedIff(s, c);
      Lengths(s, c);
      ReceiveInStep(s, c);
      SendUpdate(s, l.Dir(!upward), false);
  }

  lemma Lengths(s: Suite, c: Channel)
    requires s.Lawful() && InStep(s, c)
    ensures |c.got| <= |c.sent|
  {}

  lemma SendUpdate(s: Suite, c: Channel, requested: bool)
    requires s.Lawful() && InStep(s, c)
    ensures var d := Send(s, c, Msg(HANDSHAKE, KeyUpdate(requested)));
            InStep(s, d) && d.start == c.start && Data(d.sent) == Data(c.sent)
  {
    hide SealRecord;
    var m := Msg(HANDSHAKE, KeyUpdate(requested));
    SendInStep(s, c, m);
    DataSnoc(c.sent, m);
  }

  /**
   Lock-step over every run. Nothing ever fails to open; what was received is a prefix of what
   was sent, message by message with its content type; the reading half stood, at each record it
   opened, at the very secret and count the writing half had sealed it with; and the bytes handed
   over are a prefix of the bytes written, all of them once the wire is empty.
   */
  lemma LockStep(s: Suite, l: Link, es: seq<Event>, upward: bool)
    requires s.Lawful() && l == Link(Open(l.up.start), Open(l.down.start)) && Legal(s, l, es)
    ensures var c := Run(s, l, es).Dir(upward);
            && !c.broken && Bodies(c.got) <= c.sent
            && (forall i :: 0 <= i < |c.got| ==> c.got[i].0 == Wrote(s, c.start, c.sent[..i]))
            && Data(c.sent) == Written(es, upward) && Data(Bodies(c.got)) <= Written(es, upward)
            && (c.wire == [] ==> c.reader == c.out && Data(Bodies(c.got)) == Written(es, upward))
  {
    RunInStep(s, l, es);
    var c := Run(s, l, es).Dir(upward);
    DrainedIff(s, c);
    hide Sealed, Wrote, Read, Data;
    assert Bodies(c.got) == c.sent[..|c.got|];
    DataPrefix(c.sent, |c.got|);
    if c.wire == [] { assert c.sent[..|c.got|] == c.sent; }
  }

  lemma {:induction false} DataPrefix(ms: seq<Msg>, k: nat)
    requires k <= |ms|
    ensures Data(ms[..k]) <= Data(ms)
  {
    if k < |ms| {
      DataPrefix(ms[..|ms| - 1], k);
      assert ms[..|ms| - 1][..k] == ms[..k];
    } else {
      assert ms[..k] == ms;
    }
  }

  lemma {:induction false} RunInStep(s: Suite, l: Link, es: seq<Event>)
    requires s.Lawful() && l == Link(Open(l.up.start), Open(l.down.start)) && Legal(s, l, es)
    ensures LinkInStep(s, Run(s, l, es))
    ensures forall upward :: Data(Run(s, l, es).Dir(upward).sent) == Written(es, upward)
  {
    if es != [] {
      var init := es[..|es| - 1];
      RunInStep(s, l, init);
      hide LinkInStep, Do, Enabled, Data;
      DoInStep(s, Run(s, l, init), es[|es| - 1]);
    }
  }

  // ----- The objects take these steps -----

  /** conn is the server: it writes down and reads up, at the states the link says. */
  ghost predicate Serves(conn: T.Conn, s: Suite, l: Link)
    reads conn, conn.inHalf, conn.inHalf.seqno, conn.inHalf.cipher, conn.inHalf.cipher.nonceMask,
          conn.out, conn.out.seqno, conn.out.cipher, conn.out.cipher.nonceMask
  {
    && conn.Valid() && !conn.readErr && conn.out.suite == s
    && conn.out.State() == l.down.out && conn.inHalf.State() == l.up.reader
  }

  /** Write is the link's Write event: the same bytes on the wire, the same state after. */
  method ServerWrites(conn: T.Conn, data: seq<byte>, ghost s: Suite, ghost l: Link) returns (ok: bool, ghost e: Event)
    requires Serves(conn, s, l) && s.Lawful() && LinkInStep(s, l) && l.down.out.count + |data| < U64
    modifies conn`packetsSent, conn`bytesSent, conn`sent, conn.out.seqno, conn.out.cipher.nonceMask
    ensures ok && e.Write? && !e.upward && Concat(e.frags) == data && Enabled(l, e)
    ensures Serves(conn, s, Do(s, l, e)) && Do(s, l, e).down.wire == l.down.wire + Grown(old(conn.sent), conn.sent)
  {
    hide InStep, SealAll, Concat, UnBe, SendAll;
    ghost var frags;
    ok, frags := conn.WriteRecord(APPLICATION_DATA, data);
    e := Write(false, frags);
    SendAllInStep(s, l.down, frags);
    SuffixIs(old(conn.sent), SealAll(s, l.down.out, APPLICATION_DATA, frags));
  }

  /** What an object sent between two moments. */
  function Grown(before: seq<byte>, after: seq<byte>): seq<byte> {
    if |before| <= |after| then after[|before|..] else []
  }

  lemma SuffixIs(before: seq<byte>, more: seq<byte>)
    ensures Grown(before, before + more) == more
  {}

  /** Reading a record off the wire is the link's Deliver event, the answer to a key update included. */
  method ServerReads(conn: T.Conn, ghost s: Suite, ghost l: Link, wire: seq<byte>)
    requires Serves(conn, s, l) && s.Lawful() && LinkInStep(s, l) && wire == l.up.wire != []
    requires l.up.reader.count + 1 < U64 && l.down.out.count + 1 < U64
    modifies conn, conn.inHalf.Repr(), conn.out.Repr()
    ensures Enabled(l, Deliver(true)) && Serves(conn, s, Do(s, l, Deliver(true)))
    ensures Do(s, l, Deliver(true)).down.wire == l.down.wire + Grown(old(conn.sent), conn.sent)
  {
    hide InStep, SealRecord, UnBe, OpenRecord, Take, AfterSend, AfterReceive;
    ReaderOpens(s, l.up);
    var useless := conn.retryCount;
    var cut, r, o := conn.ReadRecord(wire);
    JudgeSent(r.typ, r.data, useless);
    if r == Fragment(HANDSHAKE, KeyUpdate(true)) {
      SuffixIs(old(conn.sent), SealRecord(s, l.down.out, HANDSHAKE, KeyUpdate(false)));
    } else {
      SuffixIs(old(conn.sent), []);
      assert old(conn.sent) + [] == old(conn.sent) && l.down.wire + [] == l.down.wire;
    }
  }

  /** On a direction in step with bytes on the wire, a record is there and it opens. */
  lemma ReaderOpens(s: Suite, c: Channel)
    requires s.Lawful() && InStep(s, c) && c.wire != []
    ensures Take(c.wire).Record?
    ensures var r := OpenRecord(s, c.reader, Take(c.wire).bytes);
            r.Fragment? && 0 < |r.data| <= MAX_PLAIN && (r.typ == APPLICATION_DATA || r.typ == HANDSHAKE)
  {
    hide SealRecord, OpenRecord, Take, AfterSend, AfterReceive, Sealed, Wrote, Read;
    DrainedIff(s, c);
    var k := |c.got|;
    var m := c.sent[k];
    assert m.Valid();
    HistoriesAgree(s, c.start, c.sent[..k]);
    SealedHead(s, c.start, c.sent, k);
    TakeSealed(s, c.reader, m.typ, m.body, Sealed(s, c.start, c.sent, k + 1));
    OpenSeal(s, c.reader, m.typ, m.body);
  }
}
