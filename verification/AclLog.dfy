/**
 The ACL LOG (internal/rbac/log.go, internal/audit/replay.go): a ring of the last 100 security
 events, and its history read back from rotated audit files at start-up.
 */
module AclLog {
  import opened Bytes
  import opened Aead

  const CAP: nat := 100

  datatype Entry = Entry(time: int, user: seq<byte>, addr: seq<byte>, reason: seq<byte>)

  function Last<T>(s: seq<T>, n: nat): (r: seq<T>)
    ensures |r| == if |s| <= n then |s| else n
  {
    if |s| <= n then s else s[|s| - n..]
  }

  /** Cutting early or late makes no difference. */
  lemma LastLast<T>(s: seq<T>, t: seq<T>, n: nat)
    ensures Last(Last(s, n) + t, n) == Last(s + t, n)
  {}

  // ----- The ring -----

  /** A slot index, at most one turn past the end. */
  function Slot(i: nat): nat
    requires i < 2 * CAP
  {
    if i < CAP then i else i - CAP
  }

  /** The len entries of a full buffer from a start slot on. */
  function Window(s: seq<Entry>, start: nat, len: nat): seq<Entry>
    requires |s| == CAP && start < CAP && len <= CAP
  {
    seq(len, i requires 0 <= i < len => s[Slot(start + i)])
  }

  function StartOf(head: nat, len: nat): nat
    requires head < CAP && len <= CAP
  {
    if head >= len then head - len else head + CAP - len
  }

  /** Writing at the head and moving it on appends to the window and drops what is over. */
  lemma Push(s: seq<Entry>, head: nat, len: nat, e: Entry)
    requires |s| == CAP && head < CAP && len <= CAP
    ensures var len1 := if len < CAP then len + 1 else len;
            Window(s[head := e], StartOf((head + 1) % CAP, len1), len1)
                == Last(Window(s, StartOf(head, len), len) + [e], CAP)
  {
    var len1 := if len < CAP then len + 1 else len;
    var head1 := if head + 1 < CAP then head + 1 else 0;
    assert (head + 1) % CAP == head1;
    var before := Window(s, StartOf(head, len), len) + [e];
    var after := Window(s[head := e], StartOf(head1, len1), len1);
    var cut := Last(before, CAP);
    assert |after| == |cut|;
    forall i | 0 <= i < |after| ensures after[i] == cut[i] {
      if len < CAP {
        assert StartOf(head1, len1) == StartOf(head, len);
        assert cut[i] == before[i];
        assert i < len <==> Slot(StartOf(head, len) + i) != head;
      } else {
        assert StartOf(head, len) == head && StartOf(head1, len1) == head1;
        assert cut[i] == before[i + 1];
        assert i < len - 1 <==> Slot(head1 + i) != head;
        assert i < len - 1 ==> Slot(head1 + i) == Slot(head + (i + 1));
      }
    }
  }

  class Ring {
    var log: array?<Entry>
    var logHead: nat
    var logLen: nat

    constructor ()
      ensures Valid() && Contents() == [] && log == null
    {
      log, logHead, logLen := null, 0, 0;
    }

    ghost predicate Valid()
      reads this
    {
      && logLen <= CAP && logHead < CAP
      && (log == null ==> logLen == 0 && logHead == 0)
      && (log != null ==> log.Length == CAP)
    }

    /** The buffered events, oldest first. */
    ghost function Contents(): seq<Entry>
      reads this, log
      requires Valid()
    {
      if log == null then [] else Window(log[..], StartOf(logHead, logLen), logLen)
    }

    /** appendLocked: allocate on first use, overwrite the oldest when full. */
    method Append(entry: Entry)
      requires Valid()
      modifies this, log
      ensures Valid() && Contents() == Last(old(Contents()) + [entry], CAP)
      ensures log != null && (log == old(log) || fresh(log))
    {
      if log == null {
        log := new Entry[CAP](_ => Entry(0, [], [], []));
      }
      Push(log[..], logHead, logLen, entry);
      ghost var before := log[..];
      log[logHead] := entry;
      assert log[..] == before[logHead := entry];
      logHead := (logHead + 1) % CAP;
      if logLen < CAP { logLen := logLen + 1; }
    }

    /** SeedAuthLog. */
    method Seed(entries: seq<Entry>)
      requires Valid()
      modifies this, log
      ensures Valid() && Contents() == Last(old(Contents()) + entries, CAP)
      ensures log == old(log) || (log != null && fresh(log))
    {
      hide Last, Contents;
      assert old(Contents()) + entries[..0] == old(Contents());
      Short();
      for i := 0 to |entries|
        invariant Valid() && Contents() == Last(old(Contents()) + entries[..i], CAP)
        invariant log == old(log) || (log != null && fresh(log))
      {
        Append(entries[i]);
        LastLast(old(Contents()) + entries[..i], [entries[i]], CAP);
        assert old(Contents()) + entries[..i] + [entries[i]] == old(Contents()) + entries[..i + 1];
      }
      assert entries[..|entries|] == entries;
    }

    lemma Short()
      requires Valid()
      ensures Last(Contents(), CAP) == Contents()
    {}

    /** AuthLog: a copy, oldest first. */
    method AuthLog() returns (out: seq<Entry>)
      requires Valid()
      ensures out == Contents()
    {
      if logLen == 0 { return []; }
      var start := logHead - logLen;
      if start < 0 { start := start + CAP; }
      out := [];
      for i := 0 to logLen
        invariant |out| == i && out == Contents()[..i]
      {
        assert (start + i) % CAP == Slot(start + i);
        assert Contents()[..i + 1] == Contents()[..i] + [Contents()[i]];
        out := out + [log[(start + i) % CAP]];
      }
    }
  }

  // ----- Reading the files back -----

  function Concat(files: seq<seq<Entry>>): seq<Entry> {
    if files == [] then [] else Concat(files[..|files| - 1]) + files[|files| - 1]
  }

  function Reversed(s: seq<Entry>): seq<Entry> {
    seq(|s|, i requires 0 <= i < |s| => s[|s| - 1 - i])
  }

  /** One more file, newest entry first, until max are held. */
  method Collect(entries: seq<Entry>, out0: seq<Entry>, max: nat) returns (out: seq<Entry>)
    requires |out0| <= max
    ensures out == Reversed(Last(entries + Reversed(out0), max))
  {
    hide Last, Gathered;
    out := out0;
    var j := |entries| - 1;
    GatherNone(entries, out0);
    while j >= 0 && |out| < max
      invariant -1 <= j < |entries| && |out| == |out0| + |entries| - 1 - j && |out| <= max
      invariant out == Gathered(entries, j + 1, out0)
    {
      GatherOne(entries, j, out0);
      out := out + [entries[j]];
      j := j - 1;
    }
    GatherEnd(entries, j + 1, out0, max);
  }

  /** The walk's list when the entries from k on have been taken. */
  function Gathered(entries: seq<Entry>, k: nat, out0: seq<Entry>): seq<Entry>
    requires k <= |entries|
  {
    Reversed(entries[k..] + Reversed(out0))
  }

  lemma GatherNone(entries: seq<Entry>, out0: seq<Entry>)
    ensures Gathered(entries, |entries|, out0) == out0
  {
    assert entries[|entries|..] + Reversed(out0) == Reversed(out0);
    ReversedTwice(out0);
  }

  lemma GatherOne(entries: seq<Entry>, j: nat, out0: seq<Entry>)
    requires j < |entries|
    ensures Gathered(entries, j, out0) == Gathered(entries, j + 1, out0) + [entries[j]]
  {
    assert entries[j..] + Reversed(out0) == [entries[j]] + (entries[j + 1..] + Reversed(out0));
    ReversedCons(entries[j], entries[j + 1..] + Reversed(out0));
  }

  lemma GatherEnd(entries: seq<Entry>, k: nat, out0: seq<Entry>, n: nat)
    requires k <= |entries| && |out0| + |entries| - k <= n && (k == 0 || |out0| + |entries| - k == n)
    ensures Gathered(entries, k, out0) == Reversed(Last(entries + Reversed(out0), n))
  {
    var newer := Reversed(out0);
    assert entries + newer == entries[..k] + (entries[k..] + newer);
    LastIs(entries[..k], entries[k..] + newer, n);
  }

  lemma ReversedCons(e: Entry, s: seq<Entry>)
    ensures Reversed([e] + s) == Reversed(s) + [e]
  {}

  lemma LastIs(older: seq<Entry>, s: seq<Entry>, n: nat)
    requires |s| == n || (older == [] && |s| <= n)
    ensures Last(older + s, n) == s
  {}

  /** The in-place reversal of what the walk collected. */
  method Reverse(a: array<Entry>)
    modifies a
    ensures a[..] == Reversed(old(a[..]))
  {
    hide Swapped, Reversed;
    ghost var was := a[..];
    var l, r := 0, a.Length - 1;
    SwappedEnds(was, 0);
    while l < r
      invariant 0 <= l && r == a.Length - 1 - l && l <= r + 1
      invariant a[..] == Swapped(was, l)
    {
      SwappedStep(was, l);
      a[l], a[r] := a[r], a[l];
      l, r := l + 1, r - 1;
    }
    SwappedEnds(was, l);
  }

  /** The l outermost pairs exchanged. */
  function Swapped(s: seq<Entry>, l: nat): (r: seq<Entry>)
    requires 2 * l <= |s| + 1
    ensures |r| == |s|
  {
    seq(|s|, i requires 0 <= i < |s| => if i < l || i >= |s| - l then s[|s| - 1 - i] else s[i])
  }

  lemma SwappedStep(s: seq<Entry>, l: nat)
    requires l < |s| - 1 - l
    ensures var t, r := Swapped(s, l), |s| - 1 - l; Swapped(s, l + 1) == t[l := t[r]][r := t[l]]
  {}

  lemma SwappedEnds(s: seq<Entry>, l: nat)
    requires 2 * l <= |s| + 1
    ensures l == 0 ==> Swapped(s, l) == s
    ensures 2 * l >= |s| - 1 ==> Swapped(s, l) == Reversed(s)
  {}

  /**
   replayAuthLog over the files in creation order: the newest file first, stopping as soon as
   enough entries are held, gives the last entries of all files together.
   */
  method ReplayAuthLog(files: seq<seq<Entry>>, maxEntries: int) returns (out: seq<Entry>)
    ensures out == if maxEntries <= 0 then [] else Last(Concat(files), maxEntries)
  {
    hide Last, Concat, Reversed;
    if maxEntries <= 0 { return []; }
    var walk: seq<Entry> := [];
    var i := |files| - 1;
    ghost var rest: seq<Entry> := [];
    WalkStart(files, maxEntries);
    while i >= 0 && |walk| < maxEntries
      invariant -1 <= i < |files| && |walk| <= maxEntries
      invariant walk == Reversed(Last(rest, maxEntries)) && Concat(files) == Concat(files[..i + 1]) + rest
    {
      walk := Collect(files[i], walk, maxEntries);
      WalkStep(files, i, rest, maxEntries);
      rest := files[i] + rest;
      i := i - 1;
    }
    WalkEnd(files, i, rest, maxEntries);
    var a := new Entry[|walk|](k requires 0 <= k < |walk| => walk[k]);
    assert a[..] == walk;
    Reverse(a);
    ReversedTwice(Last(rest, maxEntries));
    out := a[..];
  }

  lemma ReversedTwice(s: seq<Entry>)
    ensures Reversed(Reversed(s)) == s && |Reversed(s)| == |s|
  {}

  lemma WalkStart(files: seq<seq<Entry>>, n: nat)
    ensures [] == Reversed(Last([], n)) && Concat(files) == Concat(files[..|files|]) + []
  {
    assert files[..|files|] == files;
  }

  lemma WalkStep(files: seq<seq<Entry>>, i: nat, rest: seq<Entry>, n: nat)
    requires i < |files|
    ensures Last(files[i] + Reversed(Reversed(Last(rest, n))), n) == Last(files[i] + rest, n)
    ensures |Reversed(Last(files[i] + rest, n))| <= n
    ensures Concat(files[..i + 1]) + rest == Concat(files[..i]) + (files[i] + rest)
  {
    ReversedTwice(Last(rest, n));
    assert files[..i + 1][..i] == files[..i];
  }

  lemma WalkEnd(files: seq<seq<Entry>>, i: int, rest: seq<Entry>, n: nat)
    requires -1 <= i < |files| && Concat(files) == Concat(files[..i + 1]) + rest
    requires i == -1 || |Reversed(Last(rest, n))| >= n
    ensures Last(Concat(files), n) == Last(rest, n)
  {
    hide Reversed, Last;
    ReversedTwice(Last(rest, n));
    if i == -1 {
      assert files[..0] == [];
      assert Concat(files) == rest;
    } else {
      hide Concat;
      LastOfConcat(Concat(files[..i + 1]), rest, n);
    }
  }

  lemma LastOfConcat(a: seq<Entry>, b: seq<Entry>, n: nat)
    requires |Last(b, n)| >= n
    ensures Last(a + b, n) == Last(b, n)
  {}

  /** After a restart and any further events the ring holds the last 100 of history and events. */
  lemma AcrossRestart(files: seq<seq<Entry>>, events: seq<Entry>)
    ensures Last(Last([] + Last(Concat(files), CAP), CAP) + events, CAP) == Last(Concat(files) + events, CAP)
  {
    assert [] + Last(Concat(files), CAP) == Last(Concat(files), CAP);
    LastLast(Concat(files), events, CAP);
  }

  /** The restart itself: replay, seed, then every event. */
  method Restart(files: seq<seq<Entry>>, events: seq<Entry>) returns (out: seq<Entry>)
    ensures out == Last(Concat(files) + events, CAP)
  {
    hide Last, Concat;
    var ring := new Ring();
    var history := ReplayAuthLog(files, CAP);
    ring.Seed(history);
    ring.Seed(events);
    AcrossRestart(files, events);
    out := ring.AuthLog();
  }

  // ----- Sealed audit files -----

  type Parser = seq<byte> -> Option<Entry>

  /** What one sealed blob contributes: nothing when it does not open or is not an ACL LOG event. */
  function Contribution(c: Cipher, parse: Parser, blob: seq<byte>): seq<Entry> {
    var plain := c.Decrypt(blob);
    if plain.None? || parse(plain.value).None? then [] else [parse(plain.value).value]
  }

  /** decodeEncrypted: length, blob, and so on until the framing breaks. */
  function Decode(c: Cipher, parse: Parser, data: seq<byte>): seq<Entry> {
    if |data| < 4 then []
    else
      var n := UnBe(data[..4]);
      if n == 0 || n > |data| - 4 then []
      else Contribution(c, parse, data[4..4 + n]) + Decode(c, parse, data[4 + n..])
  }

  method DecodeEncrypted(c: Cipher, parse: Parser, data: seq<byte>) returns (out: seq<Entry>)
    ensures out == Decode(c, parse, data)
  {
    hide UnBe, Contribution;
    out := [];
    var rest := data;
    while |rest| >= 4
      invariant Decode(c, parse, data) == out + Decode(c, parse, rest)
      decreases |rest|
    {
      var n := UnBe(rest[..4]);
      if n == 0 || n > |rest| - 4 { return; }
      ghost var before := out;
      out := out + Contribution(c, parse, rest[4..4 + n]);
      assert before + (Contribution(c, parse, rest[4..4 + n]) + Decode(c, parse, rest[4 + n..]))
             == out + Decode(c, parse, rest[4 + n..]);
      rest := rest[4 + n..];
    }
  }

  function Frame(blob: seq<byte>): seq<byte> { Be(|blob|, 4) + blob }

  function Frames(blobs: seq<seq<byte>>): seq<byte> {
    if blobs == [] then [] else Frame(blobs[0]) + Frames(blobs[1..])
  }

  function Contributions(c: Cipher, parse: Parser, blobs: seq<seq<byte>>): seq<Entry> {
    if blobs == [] then [] else Contribution(c, parse, blobs[0]) + Contributions(c, parse, blobs[1..])
  }

  predicate Framable(blob: seq<byte>) { 0 < |blob| < U32 }

  lemma DecodeFrame(c: Cipher, parse: Parser, blob: seq<byte>, rest: seq<byte>)
    requires Framable(blob)
    ensures Decode(c, parse, Frame(blob) + rest) == Contribution(c, parse, blob) + Decode(c, parse, rest)
  {
    hide UnBe, Be, Contribution;
    var data := Frame(blob) + rest;
    Widths();
    UnBeBe(|blob|, 4);
    assert data[..4] == Be(|blob|, 4) && data[4..4 + |blob|] == blob && data[4 + |blob|..] == rest;
  }

  lemma DecodeTorn(c: Cipher, parse: Parser, blob: seq<byte>, k: nat)
    requires Framable(blob) && k < |Frame(blob)|
    ensures Decode(c, parse, Frame(blob)[..k]) == []
  {
    hide UnBe, Be, Contribution;
    var data := Frame(blob)[..k];
    if k >= 4 {
      Widths();
      UnBeBe(|blob|, 4);
      assert data[..4] == Be(|blob|, 4);
    }
  }

  /**
   A sealed file cut anywhere inside a last record decodes to what its whole records
   contribute, in order; a record that does not open costs only itself.
   */
  lemma {:induction false} TornAuditFile(c: Cipher, parse: Parser, blobs: seq<seq<byte>>, next: seq<byte>, k: nat)
    requires (forall i :: 0 <= i < |blobs| ==> Framable(blobs[i])) && Framable(next) && k < |Frame(next)|
    ensures Decode(c, parse, Frames(blobs) + Frame(next)[..k]) == Contributions(c, parse, blobs)
  {
    hide Decode, Contribution, Frame;
    var tail := Frame(next)[..k];
    if blobs == [] {
      assert Frames(blobs) + tail == tail;
      DecodeTorn(c, parse, next, k);
    } else {
      TornAuditFile(c, parse, blobs[1..], next, k);
      DecodeFrame(c, parse, blobs[0], Frames(blobs[1..]) + tail);
      assert Frames(blobs) + tail == Frame(blobs[0]) + (Frames(blobs[1..]) + tail);
    }
  }
}
