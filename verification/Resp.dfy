/**
 The RESP2 command codec (internal/resp/protocol.go): an incremental parser of multibulk
 commands, the encoder, and what carrying an unconsumed tail from read to read does.
 */
module Resp {
  import opened Bytes

  const CR: byte := 13
  const LF: byte := 10
  const ASTERISK: byte := 42
  const DOLLAR: byte := 36
  const MAX_BULK: int := 536870912

  // ----- Decimal numbers -----

  predicate Digit(b: byte) { 48 <= b <= 57 }

  predicate AllDigits(s: seq<byte>) { forall i :: 0 <= i < |s| ==> Digit(s[i]) }

  function Value(s: seq<byte>): nat
    requires AllDigits(s)
  {
    if s == [] then 0 else 10 * Value(s[..|s| - 1]) + (s[|s| - 1] as int - 48)
  }

  /** strconv.Atoi on 64 bits: an optional sign, at least one digit, in range. */
  function Atoi(s: seq<byte>): (r: Option<int>)
    ensures r.Some? ==> -I63 <= r.value < I63
  {
    var neg := |s| > 0 && s[0] == 45;
    var digits := if neg || (|s| > 0 && s[0] == 43) then s[1..] else s;
    if digits == [] || !AllDigits(digits) then None
    else
      var v: int := if neg then -(Value(digits) as int) else Value(digits);
      if -I63 <= v < I63 then Some(v) else None
  }

  /** strconv.AppendInt of a non-negative number. */
  function Itoa(n: nat): (s: seq<byte>)
    ensures s != [] && AllDigits(s)
  {
    if n < 10 then [48 + n] else Itoa(n / 10) + [48 + n % 10]
  }

  lemma {:induction false} ValueItoa(n: nat)
    ensures Value(Itoa(n)) == n
  {
    if n >= 10 {
      ValueItoa(n / 10);
      assert Itoa(n)[..|Itoa(n)| - 1] == Itoa(n / 10);
    } else {
      assert Itoa(n)[..0] == [];
    }
  }

  lemma AtoiItoa(n: nat)
    requires n < I63
    ensures Atoi(Itoa(n)) == Some(n)
  {
    ValueItoa(n);
    assert Digit(Itoa(n)[0]);
  }

  // ----- The parser as a function -----

  /** The first CR at or after i, or the end. */
  function FindCr(b: seq<byte>, i: nat): (j: nat)
    requires i <= |b|
    ensures i <= j <= |b| && (j < |b| ==> b[j] == CR) && forall k :: i <= k < j ==> b[k] != CR
    decreases |b| - i
  {
    if i == |b| || b[i] == CR then i else FindCr(b, i + 1)
  }

  datatype Line = LineMore | LineBad | Line(val: int, next: nat)

  function ParseLine(b: seq<byte>, start: nat): (r: Line)
    requires start <= |b|
    ensures r.Line? ==> start < r.next <= |b|
  {
    var i := FindCr(b, start);
    if i + 1 >= |b| then LineMore
    else if b[i + 1] != LF then LineBad
    else
      var v := Atoi(b[start..i]);
      if v.None? then LineBad else Line(v.value, i + 2)
  }

  datatype Parsed = More | Bad | Command(args: seq<seq<byte>>, consumed: nat)

  /** The n bulk strings from pos on; consumed is the position after them. */
  function ParseArgs(b: seq<byte>, pos: nat, n: nat): (r: Parsed)
    requires pos <= |b|
    ensures r.Command? ==> pos <= r.consumed <= |b| && |r.args| == n
    decreases n
  {
    if n == 0 then Command([], pos)
    else
      match BulkAt(b, pos)
      case More => More
      case Bad => Bad
      case Command(one, next) =>
        match ParseArgs(b, next, n - 1)
        case Command(args, end) => Command(one + args, end)
        case r => r
  }

  /** One bulk string: its type byte, length line, bytes and closing CRLF. */
  function BulkAt(b: seq<byte>, pos: nat): (r: Parsed)
    requires pos <= |b|
    ensures r.Command? ==> pos < r.consumed <= |b| && |r.args| == 1
  {
    if pos >= |b| then More
    else if b[pos] != DOLLAR then Bad
    else
      match ParseLine(b, pos + 1)
      case LineMore => More
      case LineBad => Bad
      case Line(len, next) =>
        if len < 0 || len > MAX_BULK then Bad
        else if next + len + 2 > |b| then More
        else if b[next + len] != CR || b[next + len + 1] != LF then Bad
        else Command([b[next..next + len]], next + len + 2)
  }

  function Parse(b: seq<byte>): (r: Parsed)
    ensures r.Command? ==> 0 < r.consumed <= |b|
  {
    if |b| == 0 then More
    else if b[0] != ASTERISK then Bad
    else
      match ParseLine(b, 1)
      case LineMore => More
      case LineBad => Bad
      case Line(n, pos) => if n < 0 || n > MAX_BULK then Bad else ParseArgs(b, pos, n)
  }

  // ----- The parser's loops -----

  method ParseLineLoop(b: seq<byte>, start: nat) returns (r: Line)
    requires start <= |b|
    ensures r == ParseLine(b, start)
  {
    hide Atoi;
    var i := start;
    while i < |b| && b[i] != CR
      invariant start <= i <= |b| && FindCr(b, start) == FindCr(b, i)
    {
      i := i + 1;
    }
    if i + 1 >= |b| { return LineMore; }
    if b[i + 1] != LF { return LineBad; }
    var v := Atoi(b[start..i]);
    if v.None? { return LineBad; }
    r := Line(v.value, i + 2);
  }

  function Before(args: seq<seq<byte>>, r: Parsed): Parsed {
    if r.Command? then Command(args + r.args, r.consumed) else r
  }

  lemma BeforeOne(args: seq<seq<byte>>, one: seq<seq<byte>>, r: Parsed)
    ensures Before(args, Before(one, r)) == Before(args + one, r)
  {
    if r.Command? { assert args + (one + r.args) == args + one + r.args; }
  }

  /** One turn of the argument loop. */
  method ParseBulk(b: seq<byte>, pos: nat) returns (r: Parsed)
    requires pos <= |b|
    ensures r == BulkAt(b, pos)
  {
    hide ParseLine;
    if pos >= |b| { return More; }
    if b[pos] != DOLLAR { return Bad; }
    var line := ParseLineLoop(b, pos + 1);
    if line.LineMore? { return More; }
    if line.LineBad? { return Bad; }
    var blen, next := line.val, line.next;
    if blen < 0 || blen > MAX_BULK { return Bad; }
    if next + blen + 2 > |b| { return More; }
    if b[next + blen] != CR || b[next + blen + 1] != LF { return Bad; }
    r := Command([b[next..next + blen]], next + blen + 2);
  }

  lemma ArgsStep(b: seq<byte>, pos: nat, n: nat, dst: seq<seq<byte>>)
    requires pos <= |b| && n > 0
    ensures var one := BulkAt(b, pos);
            Before(dst, ParseArgs(b, pos, n)) ==
            if one.Command? then Before(dst + one.args, ParseArgs(b, one.consumed, n - 1)) else one
  {
    hide BulkAt;
    var one := BulkAt(b, pos);
    if one.Command? { BeforeOne(dst, one.args, ParseArgs(b, one.consumed, n - 1)); }
  }

  method ParseLoop(b: seq<byte>) returns (r: Parsed)
    ensures r == Parse(b)
  {
    hide ParseLine, BulkAt;
    if |b| == 0 { return More; }
    if b[0] != ASTERISK { return Bad; }
    var line := ParseLineLoop(b, 1);
    if line.LineMore? { return More; }
    if line.LineBad? { return Bad; }
    if line.val < 0 || line.val > MAX_BULK { return Bad; }
    var n, pos: nat := line.val, line.next;
    var dst: seq<seq<byte>> := [];
    var i := 0;
    while i < n
      invariant 0 <= i <= n && pos <= |b|
      invariant Parse(b) == Before(dst, ParseArgs(b, pos, n - i))
    {
      ArgsStep(b, pos, n - i, dst);
      var one := ParseBulk(b, pos);
      if !one.Command? { return one; }
      dst := dst + one.args;
      pos := one.consumed;
      i := i + 1;
    }
    r := Command(dst, pos);
  }

  // ----- A verdict is final: more bytes never change it -----

  lemma {:induction false} FindCrStable(b: seq<byte>, x: seq<byte>, i: nat)
    requires i <= |b| && FindCr(b, i) < |b|
    ensures FindCr(b + x, i) == FindCr(b, i)
    decreases |b| - i
  {
    if b[i] != CR { FindCrStable(b, x, i + 1); }
  }

  lemma LineStable(b: seq<byte>, x: seq<byte>, start: nat)
    requires start <= |b| && !ParseLine(b, start).LineMore?
    ensures ParseLine(b + x, start) == ParseLine(b, start)
  {
    hide Atoi;
    FindCrStable(b, x, start);
    var i := FindCr(b, start);
    assert (b + x)[start..i] == b[start..i];
  }

  lemma BulkStable(b: seq<byte>, x: seq<byte>, pos: nat)
    requires pos <= |b| && !BulkAt(b, pos).More?
    ensures BulkAt(b + x, pos) == BulkAt(b, pos)
  {
    hide ParseLine;
    if b[pos] == DOLLAR {
      LineStable(b, x, pos + 1);
      var l := ParseLine(b, pos + 1);
      if l.Line? && 0 <= l.val <= MAX_BULK && l.next + l.val + 2 <= |b| {
        assert (b + x)[l.next..l.next + l.val] == b[l.next..l.next + l.val];
      }
    }
  }

  lemma {:induction false} ArgsStable(b: seq<byte>, x: seq<byte>, pos: nat, n: nat)
    requires pos <= |b| && !ParseArgs(b, pos, n).More?
    ensures ParseArgs(b + x, pos, n) == ParseArgs(b, pos, n)
    decreases n
  {
    hide BulkAt;
    if n > 0 {
      BulkStable(b, x, pos);
      var one := BulkAt(b, pos);
      if one.Command? { ArgsStable(b, x, one.consumed, n - 1); }
    }
  }

  /** A command or a protocol error found in a prefix is found in every extension. */
  lemma ParseStable(b: seq<byte>, x: seq<byte>)
    requires !Parse(b).More?
    ensures Parse(b + x) == Parse(b)
  {
    hide ParseLine, ParseArgs;
    if b[0] == ASTERISK {
      LineStable(b, x, 1);
      var l := ParseLine(b, 1);
      if l.Line? && 0 <= l.val <= MAX_BULK { ArgsStable(b, x, l.next, l.val); }
    }
  }

  // ----- Encoding -----

  function NumLine(t: byte, n: nat): seq<byte> { [t] + Itoa(n) + [CR, LF] }

  /** AppendBulk. */
  function Bulk(arg: seq<byte>): seq<byte> { NumLine(DOLLAR, |arg|) + arg + [CR, LF] }

  function Bulks(args: seq<seq<byte>>): seq<byte> {
    if args == [] then [] else Bulk(args[0]) + Bulks(args[1..])
  }

  /** AppendArray, then one AppendBulk per argument. */
  function Encode(args: seq<seq<byte>>): seq<byte> { NumLine(ASTERISK, |args|) + Bulks(args) }

  predicate Encodable(args: seq<seq<byte>>) {
    |args| <= MAX_BULK && forall i :: 0 <= i < |args| ==> |args[i]| <= MAX_BULK
  }

  /** A number line is read back wherever it stands. */
  lemma LineRead(a: seq<byte>, t: byte, n: nat, rest: seq<byte>)
    requires n < I63
    ensures var b := a + NumLine(t, n) + rest;
            ParseLine(b, |a| + 1) == Line(n, |a| + |NumLine(t, n)|) && b[|a|] == t
  {
    hide Atoi, Itoa;
    var d := Itoa(n);
    var b := a + NumLine(t, n) + rest;
    var start, end := |a| + 1, |a| + 1 + |d|;
    assert b[start..end] == d && b[end] == CR && b[end + 1] == LF;
    forall k | start <= k < end ensures b[k] != CR {
      assert b[k] == d[k - start] && Digit(d[k - start]);
    }
    assert FindCr(b, start) == end;
    AtoiItoa(n);
  }

  lemma BulkRead(a: seq<byte>, arg: seq<byte>, rest: seq<byte>)
    requires |arg| <= MAX_BULK
    ensures BulkAt(a + Bulk(arg) + rest, |a|) == Command([arg], |a| + |Bulk(arg)|)
  {
    hide ParseLine, NumLine;
    var b := a + Bulk(arg) + rest;
    var line := NumLine(DOLLAR, |arg|);
    assert b == a + line + (arg + [CR, LF] + rest);
    LineRead(a, DOLLAR, |arg|, arg + [CR, LF] + rest);
    var next := |a| + |line|;
    assert b[next..next + |arg|] == arg && b[next + |arg|] == CR && b[next + |arg| + 1] == LF;
  }

  lemma {:induction false} BulksRead(a: seq<byte>, args: seq<seq<byte>>, rest: seq<byte>)
    requires forall i :: 0 <= i < |args| ==> |args[i]| <= MAX_BULK
    ensures ParseArgs(a + Bulks(args) + rest, |a|, |args|) == Command(args, |a| + |Bulks(args)|)
    decreases |args|
  {
    hide Bulk, BulkAt;
    if args == [] {
      assert Bulks(args) == [];
    } else {
      var one, more := Bulk(args[0]), Bulks(args[1..]);
      var b := a + Bulks(args) + rest;
      assert b == a + one + (more + rest) && b == (a + one) + more + rest;
      BulkRead(a, args[0], more + rest);
      BulksRead(a + one, args[1..], rest);
      assert [args[0]] + args[1..] == args;
    }
  }

  /** Encoding then parsing returns the arguments, with exact consumption, whatever follows. */
  lemma ParseEncode(args: seq<seq<byte>>, rest: seq<byte>)
    requires Encodable(args)
    ensures Parse(Encode(args) + rest) == Command(args, |Encode(args)|)
  {
    hide NumLine, Bulks, ParseLine, ParseArgs;
    var line, more := NumLine(ASTERISK, |args|), Bulks(args);
    var b := Encode(args) + rest;
    assert b == [] + line + (more + rest) && b == line + more + rest;
    LineRead([], ASTERISK, |args|, more + rest);
    BulksRead(line, args, rest);
  }

  /** Every proper prefix of an encoded command is reported incomplete. */
  lemma PrefixIncomplete(args: seq<seq<byte>>, k: nat)
    requires Encodable(args) && k < |Encode(args)|
    ensures Parse(Encode(args)[..k]) == More
  {
    hide Parse, Encode;
    var b := Encode(args);
    ParseEncode(args, []);
    assert b + [] == b && b[..k] + b[k..] == b;
    if Parse(b[..k]) != More { ParseStable(b[..k], b[k..]); }
  }

  // ----- Reads of any size -----

  /** All complete commands at the front, what is left, and whether a protocol error was met. */
  datatype Drained = Drained(cmds: seq<seq<seq<byte>>>, tail: seq<byte>, bad: bool)

  function Drain(b: seq<byte>): Drained {
    match Parse(b)
    case More => Drained([], b, false)
    case Bad => Drained([], b, true)
    case Command(args, n) => var d := Drain(b[n..]); d.(cmds := [args] + d.cmds)
  }

  /** One read after another: the tail is carried, and after an error the connection is closed. */
  function Feed(chunks: seq<seq<byte>>): Drained {
    if chunks == [] then Drained([], [], false)
    else
      var d := Feed(chunks[..|chunks| - 1]);
      if d.bad then d
      else
        var e := Drain(d.tail + chunks[|chunks| - 1]);
        e.(cmds := d.cmds + e.cmds)
  }

  lemma {:induction false} DrainExtend(b: seq<byte>, x: seq<byte>)
    ensures var d, e := Drain(b), Drain(b + x);
            if d.bad then e == d.(tail := d.tail + x)
            else var more := Drain(d.tail + x);
                 e.cmds == d.cmds + more.cmds && e.tail == more.tail && e.bad == more.bad
    decreases |b|
  {
    hide Parse;
    var p := Parse(b);
    if p.Command? {
      ParseStable(b, x);
      DrainExtend(b[p.consumed..], x);
      assert (b + x)[p.consumed..] == b[p.consumed..] + x;
    } else if p.Bad? {
      ParseStable(b, x);
    }
  }

  function Join(chunks: seq<seq<byte>>): seq<byte> {
    if chunks == [] then [] else Join(chunks[..|chunks| - 1]) + chunks[|chunks| - 1]
  }

  /** However the stream is cut into reads, the commands and the first error are the same. */
  lemma {:induction false} ChunkingInvariant(chunks: seq<seq<byte>>)
    ensures Feed(chunks).cmds == Drain(Join(chunks)).cmds && Feed(chunks).bad == Drain(Join(chunks)).bad
    ensures !Feed(chunks).bad ==> Feed(chunks).tail == Drain(Join(chunks)).tail
  {
    if chunks != [] {
      var n := |chunks| - 1;
      ChunkingInvariant(chunks[..n]);
      hide Drain;
      DrainExtend(Join(chunks[..n]), chunks[n]);
    }
  }

  // ----- SET options -----

  function Lower(b: byte): byte { if 65 <= b <= 90 then b + 32 else b }

  /** equalFoldASCII against a two-letter option: case bits are or-ed in, which only letters survive. */
  predicate Option2(s: seq<byte>, a: byte, b: byte) { |s| == 2 && Lower(s[0]) == a && Lower(s[1]) == b }

  /** The signed 64-bit value a product wraps to. */
  function Wrap64(v: int): (w: int)
    ensures -I63 <= w < I63
  {
    var m := v % U64;
    if m < I63 then m else m - U64
  }

  const SECOND: int := 1000000000
  const MILLI: int := 1000000

  /** parseSetTTL on the arguments of SET: nanoseconds, or a syntax error. */
  function SetTtl(args: seq<seq<byte>>): Option<int>
    requires |args| == 3 || |args| == 5
  {
    if |args| == 3 then Some(0)
    else
      var v := Atoi(args[4]);
      if v.None? || v.value <= 0 then None
      else if Option2(args[3], 101, 120) then Some(Wrap64(v.value * SECOND))
      else if Option2(args[3], 112, 120) then Some(Wrap64(v.value * MILLI))
      else None
  }

  lemma WrapExact(v: int)
    requires v >= 0
    ensures Wrap64(v) == v <==> v < I63
  {}

  /** The lifetime is the one asked for if and only if it fits 63 bits of nanoseconds. */
  lemma SetTtlExactIff(args: seq<seq<byte>>, v: nat)
    requires |args| == 5 && Atoi(args[4]) == Some(v) && v > 0
    ensures Option2(args[3], 101, 120) ==> (SetTtl(args) == Some(v * SECOND) <==> v * SECOND < I63)
    ensures Option2(args[3], 112, 120) ==> (SetTtl(args) == Some(v * MILLI) <==> v * MILLI < I63)
  {
    hide Atoi, Wrap64;
    WrapExact(v * SECOND);
    WrapExact(v * MILLI);
  }

  /** SET k v EX 9300000000 asks for about 295 years and gets a negative lifetime, which means none. */
  lemma LongTtlWraps(args: seq<seq<byte>>)
    requires |args| == 5 && Atoi(args[4]) == Some(9300000000) && Option2(args[3], 101, 120)
    ensures SetTtl(args).Some? && SetTtl(args).value < 0
  {}
}
