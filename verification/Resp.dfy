/**
 * The RESP codec of cpp/net/protocol.cpp: the recursive printer, and a parser
 * that works on what is left of the buffer.
 */
module Resp {
  import opened Basics
  import opened Decimal

  const MAX_BULK_STRING_SIZE: nat := 512 * 1024 * 1024
  const MAX_ARRAY_SIZE: nat := 1024 * 1024
  const MAX_LINE_LENGTH: nat := 8192

  datatype RespValue =
    | SimpleString(str: string)
    | ErrorString(str: string)
    | Integer(int_val: int)
    | BulkString(str: string)
    | Array(arr_val: seq<RespValue>)
    | NullBulk

  const CRLF: string := ['\r', '\n']

  // ----- RespEncoder

  function Encode(v: RespValue): string
    decreases v, 1
  {
    match v
    case SimpleString(s) => "+" + s + CRLF
    case ErrorString(s) => "-" + s + CRLF
    case Integer(n) => ":" + Print(n) + CRLF
    case BulkString(s) => "$" + Print(|s|) + CRLF + (s + CRLF)
    case NullBulk => "$" + Print(-1) + CRLF
    case Array(vs) => "*" + Print(|vs|) + CRLF + EncodeAll(vs)
  }

  function EncodeAll(vs: seq<RespValue>): string
    decreases vs, 0
  {
    if vs == [] then [] else Encode(vs[0]) + EncodeAll(vs[1..])
  }

  // ----- RespDecoder

  /** The text before the first CRLF, and what follows it. */
  function Line(s: string): (r: Option<(string, string)>)
    ensures r.Some? ==> |s| == |r.value.0| + 2 + |r.value.1|
  {
    if |s| < 2 then None
    else if s[0] == '\r' && s[1] == '\n' then Some(([], s[2..]))
    else
      var (line, rest) :- Line(s[1..]);
      Some(([s[0]] + line, rest))
  }

  /** `readLine`, which refuses a line beyond the limit. */
  function ReadLine(s: string): (r: Option<(string, string)>)
    ensures r.Some? ==> |r.value.1| + 2 <= |s|
  {
    var r :- Line(s);
    if |r.0| > MAX_LINE_LENGTH then None else Some(r)
  }

  /** `decodeBulkString`: the two bytes after the text are skipped unread. */
  function ParseBulk(s: string, len: int): (r: Option<(RespValue, string)>)
    ensures r.Some? ==> |r.value.1| <= |s|
  {
    if len < 0 then Some((NullBulk, s))
    else if len > MAX_BULK_STRING_SIZE || len + 2 > |s| then None
    else Some((BulkString(s[..len]), s[len + 2..]))
  }

  /** `decodeOne`: a value, and what is left of the buffer after it. */
  function ParseOne(s: string): (r: Option<(RespValue, string)>)
    ensures r.Some? ==> |r.value.1| < |s|
    decreases |s|, 0
  {
    if s == [] then None
    else
      var (line, rest) :- ReadLine(s[1..]);
      ParseTagged(s[0], line, rest)
  }

  /** The `switch` of `decodeOne`, after its line is read. */
  function ParseTagged(tag: char, line: string, rest: string): (r: Option<(RespValue, string)>)
    ensures r.Some? ==> |r.value.1| <= |rest|
    decreases |rest|, 3
  {
    if tag == '+' then Some((SimpleString(line), rest))
    else if tag == '-' then Some((ErrorString(line), rest))
    else if tag == ':' then var n :- Stoll(line); Some((Integer(n), rest))
    else if tag == '$' then var n :- Stoll(line); ParseBulk(rest, n)
    else if tag == '*' then var n :- Stoll(line); ParseArray(rest, n)
    else None
  }

  /** `decodeArray`. */
  function ParseArray(s: string, n: int): (r: Option<(RespValue, string)>)
    ensures r.Some? ==> |r.value.1| <= |s|
    decreases |s|, 2
  {
    if n < 0 || n > MAX_ARRAY_SIZE then None
    else
      var (vs, after) :- ParseMany(s, n);
      Some((Array(vs), after))
  }

  /** The loop of `decodeArray`. */
  function ParseMany(s: string, n: nat): (r: Option<(seq<RespValue>, string)>)
    ensures r.Some? ==> |r.value.0| == n && |r.value.1| <= |s|
    decreases |s|, 1
  {
    if n == 0 then Some(([], s))
    else
      var (v, rest) :- ParseOne(s);
      var (vs, after) :- ParseMany(rest, n - 1);
      Some(([v] + vs, after))
  }

  // ----- lines

  predicate NoCrlf(s: string) {
    forall i :: 0 <= i < |s| - 1 ==> !(s[i] == '\r' && s[i + 1] == '\n')
  }

  lemma {:induction false} LineBack(s: string, rest: string)
    requires NoCrlf(s)
    ensures Line(s + CRLF + rest) == Some((s, rest))
  {
    var t := s + CRLF + rest;
    if s == [] {
      assert t[2..] == rest;
    } else {
      assert t[1..] == s[1..] + CRLF + rest;
      assert t[0] == s[0] && t[1] == if |s| > 1 then s[0 + 1] else '\r';
      LineBack(s[1..], rest);
      assert [s[0]] + s[1..] == s;
    }
  }

  lemma {:induction false} LineShort(s: string, n: nat)
    requires NoCrlf(s) && n < |s| + 2
    ensures Line((s + CRLF)[..n]) == None
  {
    var t := (s + CRLF)[..n];
    if n >= 2 {
      assert t[0] == s[0] && t[1] == if |s| > 1 then s[0 + 1] else '\r';
      assert t[1..] == (s[1..] + CRLF)[..n - 1];
      LineShort(s[1..], n - 1);
    }
  }

  lemma {:induction false} LineIsClean(s: string)
    ensures Line(s).Some? ==> NoCrlf(Line(s).value.0)
  {
    if |s| >= 2 { LineIsClean(s[1..]); }
  }

  /** The text of a line that a tag character precedes. */
  function Tagged(tag: char, text: string): string {
    [tag] + text + CRLF
  }

  predicate LineFits(text: string) {
    NoCrlf(text) && |text| <= MAX_LINE_LENGTH
  }

  lemma ReadTagged(tag: char, text: string, rest: string)
    requires LineFits(text)
    ensures (Tagged(tag, text) + rest)[0] == tag && ReadLine((Tagged(tag, text) + rest)[1..]) == Some((text, rest))
  {
    assert (Tagged(tag, text) + rest)[1..] == text + CRLF + rest;
    LineBack(text, rest);
  }

  lemma ReadTaggedShort(tag: char, text: string, n: nat)
    requires LineFits(text) && n < |Tagged(tag, text)|
    ensures ParseOne(Tagged(tag, text)[..n]) == None
  {
    if n > 0 {
      assert Tagged(tag, text)[..n][1..] == (text + CRLF)[..n - 1];
      LineShort(text, n - 1);
    }
  }

  lemma PrintFits(n: int)
    requires IsInt64(n)
    ensures LineFits(Print(n)) && Stoll(Print(n)) == Some(n)
  {
    PrintShort(n);
    StollOfPrint(n);
  }

  // ----- what the decoder can give back

  /** Values within the limits of the protocol, with no line break inside a simple string or an error. */
  predicate Good(v: RespValue) {
    match v
    case SimpleString(s) => LineFits(s)
    case ErrorString(s) => LineFits(s)
    case Integer(n) => IsInt64(n)
    case BulkString(s) => |s| <= MAX_BULK_STRING_SIZE
    case NullBulk => true
    case Array(vs) => |vs| <= MAX_ARRAY_SIZE && forall i :: 0 <= i < |vs| ==> Good(vs[i])
  }

  /** Whatever the buffer holds, a decoded value is a good one. */
  lemma {:induction false} DecodedIsGood(s: string)
    ensures ParseOne(s).Some? ==> Good(ParseOne(s).value.0)
    decreases |s|, 0
  {
    if s != [] && ReadLine(s[1..]).Some? {
      LineIsClean(s[1..]);
      var (line, rest) := ReadLine(s[1..]).value;
      TaggedIsGood(s[0], line, rest);
    }
  }

  lemma {:induction false} TaggedIsGood(tag: char, line: string, rest: string)
    requires LineFits(line)
    ensures ParseTagged(tag, line, rest).Some? ==> Good(ParseTagged(tag, line, rest).value.0)
    decreases |rest|, 3
  {
    if tag == '*' && Stoll(line).Some? && 0 <= Stoll(line).value {
      ArrayIsGood(rest, Stoll(line).value);
    }
  }

  lemma {:induction false} ArrayIsGood(rest: string, n: nat)
    ensures ParseArray(rest, n).Some? ==> Good(ParseArray(rest, n).value.0)
    decreases |rest|, 2
  {
    ManyAreGood(rest, n);
    if ParseArray(rest, n).Some? {
      var vs := ParseMany(rest, n).value.0;
      assert ParseArray(rest, n).value.0 == Array(vs) && |vs| == n;
    }
  }

  lemma {:induction false} ManyAreGood(s: string, n: nat)
    ensures ParseMany(s, n).Some? ==> forall i :: 0 <= i < n ==> Good(ParseMany(s, n).value.0[i])
    decreases |s|, 1
  {
    if n > 0 && ParseOne(s).Some? {
      DecodedIsGood(s);
      ManyAreGood(ParseOne(s).value.1, n - 1);
    }
  }

  // ----- round trip

  lemma BulkBack(s: string, rest: string)
    requires |s| <= MAX_BULK_STRING_SIZE
    ensures ParseBulk(s + CRLF + rest, |s|) == Some((BulkString(s), rest))
  {
    assert (s + CRLF + rest)[..|s|] == s && (s + CRLF + rest)[|s| + 2..] == rest;
  }

  lemma ParseTaggedBulk(s: string, rest: string)
    requires |s| <= MAX_BULK_STRING_SIZE
    ensures ParseOne(Tagged('$', Print(|s|)) + (s + CRLF + rest)) == Some((BulkString(s), rest))
  {
    PrintFits(|s|);
    ReadTagged('$', Print(|s|), s + CRLF + rest);
    BulkBack(s, rest);
  }

  lemma ParseTaggedArray(n: nat, body: string)
    requires n <= MAX_ARRAY_SIZE
    ensures ParseOne(Tagged('*', Print(n)) + body) ==
            if ParseMany(body, n).None? then None
            else Some((Array(ParseMany(body, n).value.0), ParseMany(body, n).value.1))
  {
    PrintFits(n);
    ReadTagged('*', Print(n), body);
    assert ParseTagged('*', Print(n), body) == ParseArray(body, n);
  }

  lemma ParseTaggedLine(v: RespValue, rest: string)
    requires Good(v) && !v.BulkString? && !v.Array?
    ensures ParseOne(Encode(v) + rest) == Some((v, rest))
  {
    match v
    case SimpleString(s) => ReadTagged('+', s, rest);
    case ErrorString(s) => ReadTagged('-', s, rest);
    case Integer(n) => PrintFits(n); ReadTagged(':', Print(n), rest);
    case NullBulk => PrintFits(-1); ReadTagged('$', Print(-1), rest);
  }

  lemma EncodeBulk(s: string, rest: string)
    ensures Encode(BulkString(s)) + rest == Tagged('$', Print(|s|)) + (s + CRLF + rest)
  {
  }

  lemma EncodeArray(vs: seq<RespValue>, rest: string)
    ensures Encode(Array(vs)) + rest == Tagged('*', Print(|vs|)) + (EncodeAll(vs) + rest)
  {
  }

  /** Decoding an encoded value gives it back and stops exactly where it ends. */
  lemma {:induction false} RoundTrip(v: RespValue, rest: string)
    requires Good(v)
    ensures ParseOne(Encode(v) + rest) == Some((v, rest))
    decreases v, 1
  {
    match v
    case BulkString(s) =>
      ParseTaggedBulk(s, rest);
      EncodeBulk(s, rest);
    case Array(vs) =>
      RoundTripAll(vs, rest);
      ParseTaggedArray(|vs|, EncodeAll(vs) + rest);
      EncodeArray(vs, rest);
    case _ =>
      ParseTaggedLine(v, rest);
  }

  lemma {:induction false} RoundTripAll(vs: seq<RespValue>, rest: string)
    requires forall i :: 0 <= i < |vs| ==> Good(vs[i])
    ensures ParseMany(EncodeAll(vs) + rest, |vs|) == Some((vs, rest))
    decreases vs, 0
  {
    if vs == [] {
      assert EncodeAll(vs) + rest == rest;
    } else {
      RoundTrip(vs[0], EncodeAll(vs[1..]) + rest);
      RoundTripAll(vs[1..], rest);
      EncodeAllFirst(vs, rest);
    }
  }

  lemma EncodeAllFirst(vs: seq<RespValue>, rest: string)
    requires vs != []
    ensures EncodeAll(vs) + rest == Encode(vs[0]) + (EncodeAll(vs[1..]) + rest)
    ensures [vs[0]] + vs[1..] == vs
  {
    Associates(Encode(vs[0]), EncodeAll(vs[1..]), rest);
  }

  /** A value comes back from its encoding exactly when it is a good one. */
  lemma RoundTripExact(v: RespValue, rest: string)
    ensures ParseOne(Encode(v) + rest) == Some((v, rest)) <==> Good(v)
  {
    DecodedIsGood(Encode(v) + rest);
    if Good(v) { RoundTrip(v, rest); }
  }

  // ----- what is on the wire

  /** The first character of the buffer tells the kind of the value, and no other character starts one. */
  lemma KindByTag(s: string)
    requires ParseOne(s).Some?
    ensures s != []
    ensures match ParseOne(s).value.0
            case SimpleString(_) => s[0] == '+'
            case ErrorString(_) => s[0] == '-'
            case Integer(_) => s[0] == ':'
            case BulkString(_) => s[0] == '$'
            case NullBulk => s[0] == '$'
            case Array(_) => s[0] == '*'
  {
    var (line, rest) := ReadLine(s[1..]).value;
    if s[0] == '*' { assert ParseTagged('*', line, rest) == ParseArray(rest, Stoll(line).value); }
  }

  /** The printed forms: a line for a text or a number, a length before a bulk string, a count before an array. */
  lemma Printed(text: string, n: int, vs: seq<RespValue>)
    ensures Encode(SimpleString(text)) == "+" + text + "\r\n"
    ensures Encode(ErrorString(text)) == "-" + text + "\r\n"
    ensures Encode(Integer(n)) == ":" + Print(n) + "\r\n"
    ensures Encode(BulkString(text)) == "$" + Print(|text|) + "\r\n" + text + "\r\n"
    ensures Encode(NullBulk) == "$-1\r\n"
    ensures Encode(Array(vs)) == "*" + Print(|vs|) + "\r\n" + EncodeAll(vs)
  {
    assert Print(-1) == "-1";
    Associates("$" + Print(|text|) + CRLF, text, CRLF);
  }

  /** A command as it goes out. */
  lemma PingOnTheWire()
    ensures Encode(Array(Bulks(["PING"]))) == "*1\r\n$4\r\nPING\r\n"
  {
    var ping := BulkString("PING");
    assert Bulks(["PING"]) == [ping] && [ping][1..] == [];
    Printed("PING", 0, [ping]);
    assert Print(1) == "1" && Print(4) == "4";
    assert EncodeAll([ping]) == Encode(ping) + [];
  }

  /** The limits are half a gibibyte to a bulk string, a mebi of values to an array and 8192 characters to a line. */
  lemma LimitsExact(text: string, vs: seq<RespValue>, rest: string)
    ensures ParseOne(Encode(BulkString(text)) + rest) == Some((BulkString(text), rest)) <==> |text| <= 536_870_912
    ensures ParseOne(Encode(SimpleString(text)) + rest) == Some((SimpleString(text), rest)) <==> NoCrlf(text) && |text| <= 8192
    ensures ParseOne(Encode(ErrorString(text)) + rest) == Some((ErrorString(text), rest)) <==> NoCrlf(text) && |text| <= 8192
    ensures ParseOne(Encode(Array(vs)) + rest) == Some((Array(vs), rest)) <==>
            |vs| <= 1_048_576 && forall i :: 0 <= i < |vs| ==> Good(vs[i])
  {
    RoundTripExact(BulkString(text), rest);
    RoundTripExact(SimpleString(text), rest);
    RoundTripExact(ErrorString(text), rest);
    RoundTripExact(Array(vs), rest);
  }

  // ----- commands

  function Bulks(strs: seq<string>): (vs: seq<RespValue>)
    ensures |vs| == |strs|
  {
    seq(|strs|, i requires 0 <= i < |strs| => BulkString(strs[i]))
  }

  lemma {:induction false} EncodeAllMore(vs: seq<RespValue>, v: RespValue)
    ensures EncodeAll(vs + [v]) == EncodeAll(vs) + Encode(v)
  {
    if vs == [] {
      assert vs + [v] == [v] && [v][1..] == [];
    } else {
      assert (vs + [v])[0] == vs[0] && (vs + [v])[1..] == vs[1..] + [v];
      EncodeAllMore(vs[1..], v);
      assert Encode(vs[0]) + (EncodeAll(vs[1..]) + Encode(v)) == Encode(vs[0]) + EncodeAll(vs[1..]) + Encode(v);
    }
  }

  /** `encodeArray`: strings go out as an array of bulk strings. */
  method EncodeCommand(strs: seq<string>) returns (out: string)
    ensures out == Encode(Array(Bulks(strs)))
  {
    var head := "*" + Print(|strs|) + CRLF;
    out := head;
    ghost var done: string := [];
    assert head + done == head;
    for i := 0 to |strs|
      invariant done == EncodeAll(Bulks(strs[..i])) && out == head + done
    {
      var item := "$" + Print(|strs[i]|) + CRLF + (strs[i] + CRLF);
      assert Bulks(strs[..i + 1]) == Bulks(strs[..i]) + [BulkString(strs[i])];
      EncodeAllMore(Bulks(strs[..i]), BulkString(strs[i]));
      Associates(head, done, item);
      out, done := out + item, done + item;
    }
    assert strs[..|strs|] == strs;
  }

  /** A command within the limits is read back as it was sent. */
  lemma CommandReadsBack(strs: seq<string>, rest: string)
    requires |strs| <= MAX_ARRAY_SIZE && forall i :: 0 <= i < |strs| ==> |strs[i]| <= MAX_BULK_STRING_SIZE
    ensures ParseOne(Encode(Array(Bulks(strs))) + rest) == Some((Array(Bulks(strs)), rest))
  {
    RoundTrip(Array(Bulks(strs)), rest);
  }

  // ----- a value cut short decodes to nothing

  lemma BulkShort(s: string, n: nat)
    requires |s| <= MAX_BULK_STRING_SIZE && n < |s| + 2
    ensures ParseOne(Tagged('$', Print(|s|)) + (s + CRLF)[..n]) == None
  {
    PrintFits(|s|);
    ReadTagged('$', Print(|s|), (s + CRLF)[..n]);
  }

  lemma {:induction false} PrefixFails(v: RespValue, n: nat)
    requires Good(v) && n < |Encode(v)|
    ensures ParseOne(Encode(v)[..n]) == None
    decreases v, 1
  {
    match v
    case SimpleString(s) => ReadTaggedShort('+', s, n);
    case ErrorString(s) => ReadTaggedShort('-', s, n);
    case Integer(k) => PrintFits(k); ReadTaggedShort(':', Print(k), n);
    case NullBulk => PrintFits(-1); ReadTaggedShort('$', Print(-1), n);
    case BulkString(s) => BulkPrefixFails(s, n);
    case Array(vs) => ArrayPrefixFails(vs, n);
  }

  lemma BulkPrefixFails(s: string, n: nat)
    requires Good(BulkString(s)) && n < |Encode(BulkString(s))|
    ensures ParseOne(Encode(BulkString(s))[..n]) == None
  {
    var head := Tagged('$', Print(|s|));
    PrintFits(|s|);
    if n < |head| {
      assert Encode(BulkString(s))[..n] == head[..n];
      ReadTaggedShort('$', Print(|s|), n);
    } else {
      assert Encode(BulkString(s))[..n] == head + (s + CRLF)[..n - |head|];
      BulkShort(s, n - |head|);
    }
  }

  lemma {:induction false} ArrayPrefixFails(vs: seq<RespValue>, n: nat)
    requires Good(Array(vs)) && n < |Encode(Array(vs))|
    ensures ParseOne(Encode(Array(vs))[..n]) == None
    decreases vs, 1
  {
    var head := Tagged('*', Print(|vs|));
    PrintFits(|vs|);
    if n < |head| {
      assert Encode(Array(vs))[..n] == head[..n];
      ReadTaggedShort('*', Print(|vs|), n);
    } else {
      assert Encode(Array(vs))[..n] == head + EncodeAll(vs)[..n - |head|];
      PrefixFailsAll(vs, n - |head|);
      ParseTaggedArray(|vs|, EncodeAll(vs)[..n - |head|]);
    }
  }

  lemma {:induction false} PrefixFailsAll(vs: seq<RespValue>, n: nat)
    requires (forall i :: 0 <= i < |vs| ==> Good(vs[i])) && n < |EncodeAll(vs)|
    ensures ParseMany(EncodeAll(vs)[..n], |vs|) == None
    decreases vs, 0
  {
    var first := Encode(vs[0]);
    if n < |first| {
      assert EncodeAll(vs)[..n] == first[..n];
      PrefixFails(vs[0], n);
    } else {
      var tail := EncodeAll(vs[1..])[..n - |first|];
      assert EncodeAll(vs)[..n] == first + tail;
      RoundTrip(vs[0], tail);
      PrefixFailsAll(vs[1..], n - |first|);
    }
  }

  // ----- the decoder object

  /** `buf.find("\r\n", from)`. */
  method FindCrlf(buf: string, from: nat) returns (at: Option<nat>)
    requires from <= |buf|
    ensures at.None? ==> Line(buf[from..]) == None
    ensures at.Some? ==> from <= at.value && at.value + 2 <= |buf| && Line(buf[from..]) == Some((buf[from..at.value], buf[at.value + 2..]))
  {
    var i := from;
    ExtendNothing(buf[from..i], Line(buf[from..]));
    while i + 1 < |buf|
      invariant from <= i <= |buf|
      invariant Line(buf[from..]) == Extend(buf[from..i], Line(buf[i..]))
    {
      if buf[i] == '\r' && buf[i + 1] == '\n' {
        assert buf[i..][2..] == buf[i + 2..] && buf[from..i] + [] == buf[from..i];
        return Some(i);
      }
      assert buf[i..][1..] == buf[i + 1..];
      assert buf[from..i + 1] == buf[from..i] + [buf[i]];
      LineSkips(buf[i..]);
      ExtendOne(buf[from..i], buf[i], Line(buf[i + 1..]));
      i := i + 1;
    }
    return None;
  }

  class RespDecoder {
    const buf: string
    var pos: nat

    /** What is left of the buffer. */
    ghost function Rest(): string
      reads this
      requires pos <= |buf|
    {
      buf[pos..]
    }

    constructor (b: string)
      ensures buf == b && pos == 0
    {
      buf, pos := b, 0;
    }

    /** `readLine`: the position moves only when a line is read. */
    method NextLine() returns (line: Option<string>)
      requires pos <= |buf|
      modifies this
      ensures pos <= |buf|
      ensures line.None? ==> ReadLine(old(Rest())) == None && pos == old(pos)
      ensures line.Some? ==> ReadLine(old(Rest())) == Some((line.value, Rest())) && pos >= old(pos) + 2
    {
      var at := FindCrlf(buf, pos);
      if at.None? || at.value - pos > MAX_LINE_LENGTH { return None; }
      line := Some(buf[pos..at.value]);
      pos := at.value + 2;
    }

    method DecodeBulkString(len: int) returns (v: Option<RespValue>)
      requires pos <= |buf|
      modifies this
      ensures pos <= |buf|
      ensures v.None? ==> ParseBulk(old(Rest()), len) == None
      ensures v.Some? ==> ParseBulk(old(Rest()), len) == Some((v.value, Rest()))
    {
      if len < 0 { return Some(NullBulk); }
      if len > MAX_BULK_STRING_SIZE { return None; }
      if pos + len + 2 > |buf| { return None; }
      v := Some(BulkString(buf[pos..pos + len]));
      assert Rest()[..len] == buf[pos..pos + len] && Rest()[len + 2..] == buf[pos + len + 2..];
      pos := pos + len + 2;
    }

    method DecodeArray(count: int) returns (v: Option<RespValue>)
      requires pos <= |buf|
      modifies this
      ensures pos <= |buf|
      ensures v.None? ==> ParseArray(old(Rest()), count) == None
      ensures v.Some? ==> ParseArray(old(Rest()), count) == Some((v.value, Rest()))
      decreases |buf| - pos, 3
    {
      if count < 0 { return None; }
      if count > MAX_ARRAY_SIZE { return None; }
      v := DecodeItems(count);
    }

    /** One turn of the loop of `decodeArray`. */
    method DecodeItem(ghost all: Option<(seq<RespValue>, string)>, ghost read: seq<RespValue>, ghost todo: nat)
      returns (x: Option<RespValue>)
      requires pos <= |buf| && todo > 0 && Left(all, read, Rest(), todo)
      modifies this
      ensures pos <= |buf|
      ensures x.None? ==> all == None
      ensures x.Some? ==> pos > old(pos) && Left(all, read + [x.value], Rest(), todo - 1)
      decreases |buf| - pos, 1
    {
      x := DecodeOne();
    }

    /** The loop of `decodeArray`. */
    method DecodeItems(count: nat) returns (v: Option<RespValue>)
      requires pos <= |buf|
      modifies this
      ensures pos <= |buf|
      ensures v.None? ==> ParseMany(old(Rest()), count) == None
      ensures v.Some? ==> v.value.Array? && ParseMany(old(Rest()), count) == Some((v.value.arr_val, Rest()))
      decreases |buf| - pos, 2
    {
      var arr: seq<RespValue> := [];
      var i: nat := 0;
      ghost var all := ParseMany(Rest(), count);
      ghost var todo: nat := count;
      LeftAll(Rest(), count);
      while i < count
        invariant old(pos) <= pos <= |buf| && i <= count && (i > 0 ==> pos > old(pos))
        invariant todo == count - i
        invariant Left(all, arr, Rest(), todo)
      {
        var x := DecodeItem(all, arr, todo);
        if x.None? { return None; }
        arr, i, todo := arr + [x.value], i + 1, todo - 1;
      }
      v := Some(Array(arr));
    }

    /** `decodeOne`: on success the position is exactly behind the value. */
    method DecodeOne() returns (v: Option<RespValue>)
      requires pos <= |buf|
      modifies this
      ensures pos <= |buf|
      ensures v.None? ==> ParseOne(old(Rest())) == None
      ensures v.Some? ==> ParseOne(old(Rest())) == Some((v.value, Rest())) && pos > old(pos)
      decreases |buf| - pos, 0
    {
      if pos >= |buf| { return None; }
      var prefix := buf[pos];
      assert Rest()[0] == prefix && Rest()[1..] == buf[pos + 1..];
      pos := pos + 1;
      var line := NextLine();
      if line.None? { return None; }
      if prefix == '+' { return Some(SimpleString(line.value)); }
      if prefix == '-' { return Some(ErrorString(line.value)); }
      if prefix != ':' && prefix != '$' && prefix != '*' { return None; }
      var n := Stoll(line.value);
      if n.None? { return None; }
      if prefix == ':' { return Some(Integer(n.value)); }
      if prefix == '$' {
        v := DecodeBulkString(n.value);
      } else {
        v := DecodeArray(n.value);
      }
    }
  }

  ghost function Extend(front: string, r: Option<(string, string)>): Option<(string, string)> {
    if r.None? then None else Some((front + r.value.0, r.value.1))
  }

  ghost function Prepend(front: seq<RespValue>, r: Option<(seq<RespValue>, string)>): Option<(seq<RespValue>, string)> {
    if r.None? then None else Some((front + r.value.0, r.value.1))
  }

  lemma ExtendNothing(none: string, r: Option<(string, string)>)
    requires none == []
    ensures Extend(none, r) == r
  {
    if r.Some? { assert none + r.value.0 == r.value.0; }
  }

  lemma LineSkips(s: string)
    requires |s| >= 2 && !(s[0] == '\r' && s[1] == '\n')
    ensures Line(s) == Extend([s[0]], Line(s[1..]))
  {
  }

  lemma ExtendOne(front: string, c: char, r: Option<(string, string)>)
    ensures Extend(front, Extend([c], r)) == Extend(front + [c], r)
  {
    if r.Some? { assert front + ([c] + r.value.0) == (front + [c]) + r.value.0; }
  }

  /** The whole array is what has been read, and then n more values from s. */
  ghost predicate Left(all: Option<(seq<RespValue>, string)>, read: seq<RespValue>, s: string, n: nat)
    decreases n
  {
    if n == 0 then all == Some((read, s))
    else match ParseOne(s)
      case None => all == None
      case Some(r) => Left(all, read + [r.0], r.1, n - 1)
  }

  lemma {:induction false} LeftStart(read: seq<RespValue>, s: string, n: nat)
    ensures Left(Prepend(read, ParseMany(s, n)), read, s, n)
    decreases n
  {
    if n == 0 {
      assert read + [] == read;
    } else if ParseOne(s).Some? {
      var r := ParseOne(s).value;
      PrependOne(read, r.0, ParseMany(r.1, n - 1));
      LeftStart(read + [r.0], r.1, n - 1);
    }
  }

  lemma LeftAll(s: string, n: nat)
    ensures Left(ParseMany(s, n), [], s, n)
  {
    LeftStart([], s, n);
    PrependNothing(ParseMany(s, n));
  }

  lemma PrependNothing(r: Option<(seq<RespValue>, string)>)
    ensures Prepend([], r) == r
  {
    if r.Some? { assert [] + r.value.0 == r.value.0; }
  }

  lemma PrependOne(front: seq<RespValue>, v: RespValue, r: Option<(seq<RespValue>, string)>)
    ensures Prepend(front, Prepend([v], r)) == Prepend(front + [v], r)
  {
    if r.Some? { assert front + ([v] + r.value.0) == (front + [v]) + r.value.0; }
  }
}
