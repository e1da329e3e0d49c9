/** The RESP parser shared by the network, log recovery and replication. */
module Resp {
  import opened Wrappers
  import opened Decimal

  const MAX_ARGS: nat := 1024 * 1024
  const MAX_BULK: nat := 512 * 1024 * 1024
  const MAX_HEADER: nat := 32

  // A command and the offset past it, a valid prefix, or something no continuation can make valid.
  datatype Parsed = Complete(end: nat, args: seq<string>) | NeedMore | Malformed {
    function Shift(offset: nat): Parsed {
      match this
      case Complete(end, args) => Complete(offset + end, args)
      case _ => this
    }

    // The result of a parse that continues one which consumed `offset` bytes and found `before`.
    function After(offset: nat, before: seq<string>): Parsed {
      match this
      case Complete(end, args) => Complete(offset + end, before + args)
      case _ => this
    }
  }

  function Min(a: nat, b: nat): nat {
    if a < b then a else b
  }

  // -------- headers: a prefix, a decimal number and CRLF within a bounded window --------

  function FindCrlf(w: string): (r: Option<nat>)
    ensures r.Some? ==> r.value + 1 < |w| && w[r.value] == '\r' && w[r.value + 1] == '\n'
  {
    if |w| < 2 then None
    else if w[0] == '\r' && w[1] == '\n' then Some(0)
    else
      match FindCrlf(w[1..])
      case None => None
      case Some(i) => Some(i + 1)
  }

  datatype Header = Number(next: nat, value: nat) | Short | Bad

  function ReadHeader(s: string, prefix: char, max: nat): (h: Header)
    ensures h.Number? ==> 0 < h.next <= |s| && h.value <= max
  {
    if s == [] then Short
    else if s[0] != prefix then Bad
    else
      var window := s[..Min(MAX_HEADER, |s|)];
      match FindCrlf(window)
      case None => if |window| < MAX_HEADER then Short else Bad
      case Some(crlf) =>
        if crlf == 0 then Bad
        else
          var digits := window[1..crlf];
          if digits != [] && AllDigits(digits) && Value(digits) <= max then Number(crlf + 2, Value(digits)) else Bad
  }

  // -------- bulk strings and arrays --------

  datatype Bulk = Got(value: string, next: nat) | BulkShort | BulkBad

  function ReadBulk(s: string): (r: Bulk)
    ensures r.Got? ==> r.next <= |s| && |r.value| <= MAX_BULK
  {
    match ReadHeader(s, '$', MAX_BULK)
    case Short => BulkShort
    case Bad => BulkBad
    case Number(p, len) =>
      if |s| - p < len + 2 then BulkShort
      else if s[p + len] != '\r' || s[p + len + 1] != '\n' then BulkBad
      else Got(s[p..p + len], p + len + 2)
  }

  function ReadBulks(s: string, count: nat): (r: Parsed)
    ensures r.Complete? ==> r.end <= |s| && |r.args| == count && InLimitEach(r.args)
    decreases count
  {
    if count == 0 then Complete(0, [])
    else
      match ReadBulk(s)
      case BulkShort => NeedMore
      case BulkBad => Malformed
      case Got(value, next) => ReadBulks(s[next..], count - 1).After(next, [value])
  }

  predicate InLimitEach(args: seq<string>) {
    forall i :: 0 <= i < |args| ==> |args[i]| <= MAX_BULK
  }

  predicate InLimit(args: seq<string>) {
    |args| <= MAX_ARGS && InLimitEach(args)
  }

  function ParseArray(s: string): (r: Parsed)
    ensures r.Complete? ==> 0 < r.end <= |s| && InLimit(r.args)
  {
    match ReadHeader(s, '*', MAX_ARGS)
    case Short => NeedMore
    case Bad => Malformed
    case Number(p, count) => ReadBulks(s[p..], count).Shift(p)
  }

  lemma EmptyNeedsMore()
    ensures ParseArray([]) == NeedMore
  {
  }

  lemma DropDrop(s: string, a: nat, b: nat)
    requires a + b <= |s|
    ensures s[a..][b..] == s[a + b..]
  {
  }

  lemma AfterAfter(r: Parsed, o1: nat, b1: seq<string>, o2: nat, b2: seq<string>)
    ensures r.After(o2, b2).After(o1, b1) == r.After(o1 + o2, b1 + b2)
  {
    if r.Complete? { assert b1 + (b2 + r.args) == (b1 + b2) + r.args; }
  }

  lemma BulksMore(s: string, count: nat, value: string, next: nat, offset: nat, args: seq<string>)
    requires count > 0 && ReadBulk(s) == Got(value, next)
    ensures ReadBulks(s, count).After(offset, args) ==
            ReadBulks(s[next..], count - 1).After(offset + next, args + [value])
  {
    AfterAfter(ReadBulks(s[next..], count - 1), offset, args, next, [value]);
  }

  // One bulk string of the buffer, read from offset p.
  method ReadBulkAt(buf: string, p: nat) returns (b: Bulk)
    requires p <= |buf|
    ensures b == ReadBulk(buf[p..])
  {
    var h := ReadHeader(buf[p..], '$', MAX_BULK);
    if h.Short? { return BulkShort; }
    if h.Bad? { return BulkBad; }
    var q := p + h.next;
    if |buf| - q < h.value + 2 { return BulkShort; }
    if buf[q + h.value] != '\r' || buf[q + h.value + 1] != '\n' { return BulkBad; }
    assert buf[p..][h.next..h.next + h.value] == buf[q..q + h.value];
    b := Got(buf[q..q + h.value], h.next + h.value + 2);
  }

  // The parser as it runs: one offset over the buffer, arguments appended as they complete.
  method Parse(buf: string, pos: nat) returns (r: Parsed)
    requires pos <= |buf|
    ensures r == ParseArray(buf[pos..]).Shift(pos)
  {
    hide ReadHeader, ReadBulks;
    var h := ReadHeader(buf[pos..], '*', MAX_ARGS);
    if h.Short? { return NeedMore; }
    if h.Bad? { return Malformed; }
    DropDrop(buf, pos, h.next);
    var p := pos + h.next;
    r := ParseBody(buf, p, h.value);
    r := r.Shift(p);
  }

  // What is still to be read, put after what was read, is the whole.
  ghost predicate Resumes(s: string, left: nat, offset: nat, args: seq<string>, whole: Parsed) {
    ReadBulks(s, left).After(offset, args) == whole
  }

  lemma BodyStep(s: string, left: nat, offset: nat, args: seq<string>, whole: Parsed)
    requires left > 0 && Resumes(s, left, offset, args, whole)
    ensures ReadBulk(s).BulkShort? ==> whole == NeedMore
    ensures ReadBulk(s).BulkBad? ==> whole == Malformed
    ensures ReadBulk(s).Got? ==>
              Resumes(s[ReadBulk(s).next..], left - 1, offset + ReadBulk(s).next, args + [ReadBulk(s).value], whole)
  {
    var b := ReadBulk(s);
    if b.Got? {
      BulksMore(s, left, b.value, b.next, offset, args);
    }
  }

  lemma BodyEnds(s: string, offset: nat, args: seq<string>, whole: Parsed)
    requires Resumes(s, 0, offset, args, whole)
    ensures whole == Complete(offset, args)
  {
    assert args + [] == args;
  }

  lemma BodyStarts(s: string, count: nat)
    ensures Resumes(s, count, 0, [], ReadBulks(s, count))
  {
    var r := ReadBulks(s, count);
    if r.Complete? { assert [] + r.args == r.args; }
  }

  method ParseBody(buf: string, body: nat, count: nat) returns (r: Parsed)
    requires body <= |buf|
    ensures r == ReadBulks(buf[body..], count)
  {
    hide ReadBulk, ReadBulks, Resumes;
    ghost var whole := ReadBulks(buf[body..], count);
    var p := body;
    var args: seq<string> := [];
    var i := 0;
    ghost var rest := buf[body..];
    BodyStarts(rest, count);
    while i < count
      invariant 0 <= i <= count && body <= p <= |buf| && rest == buf[p..]
      invariant Resumes(rest, count - i, p - body, args, whole)
    {
      var b := ReadBulkAt(buf, p);
      BodyStep(rest, count - i, p - body, args, whole);
      if b.BulkShort? { return NeedMore; }
      if b.BulkBad? { return Malformed; }
      DropDrop(buf, p, b.next);
      rest := rest[b.next..];
      args := args + [b.value];
      p := p + b.next;
      i := i + 1;
    }
    BodyEnds(rest, p - body, args, whole);
    r := Complete(p - body, args);
  }

  // -------- stability: a verdict never changes when bytes are appended --------

  lemma {:induction false} FindCrlfStable(w: string, more: string)
    requires FindCrlf(w).Some?
    ensures FindCrlf(w + more) == FindCrlf(w)
  {
    if !(w[0] == '\r' && w[1] == '\n') {
      assert (w + more)[1..] == w[1..] + more;
      FindCrlfStable(w[1..], more);
    }
  }

  lemma WindowGrows(s: string, more: string, limit: nat)
    ensures s[..Min(limit, |s|)] <= (s + more)[..Min(limit, |s + more|)]
    ensures |s| >= limit ==> s[..Min(limit, |s|)] == (s + more)[..Min(limit, |s + more|)]
  {
  }

  lemma HeaderStable(s: string, more: string, prefix: char, max: nat)
    requires !ReadHeader(s, prefix, max).Short?
    ensures ReadHeader(s + more, prefix, max) == ReadHeader(s, prefix, max)
  {
    if s[0] == prefix {
      var w, w' := s[..Min(MAX_HEADER, |s|)], (s + more)[..Min(MAX_HEADER, |s + more|)];
      WindowGrows(s, more, MAX_HEADER);
      if FindCrlf(w).Some? {
        assert w' == w + w'[|w|..];
        FindCrlfStable(w, w'[|w|..]);
        var crlf := FindCrlf(w).value;
        assert w'[1..Max1(crlf)] == w[1..Max1(crlf)];
      }
    }
  }

  function Max1(n: nat): nat {
    if n < 1 then 1 else n
  }

  lemma DropAppend(s: string, more: string, n: nat)
    requires n <= |s|
    ensures (s + more)[n..] == s[n..] + more
  {
  }

  lemma BulkStable(s: string, more: string)
    requires !ReadBulk(s).BulkShort?
    ensures ReadBulk(s + more) == ReadBulk(s)
  {
    hide ReadHeader;
    HeaderStable(s, more, '$', MAX_BULK);
    var h := ReadHeader(s, '$', MAX_BULK);
    if h.Number? { assert (s + more)[h.next..h.next + h.value] == s[h.next..h.next + h.value]; }
  }

  lemma {:induction false} BulksStable(s: string, more: string, count: nat)
    requires !ReadBulks(s, count).NeedMore?
    ensures ReadBulks(s + more, count) == ReadBulks(s, count)
    decreases count
  {
    hide ReadBulk;
    if count > 0 {
      BulkStable(s, more);
      var b := ReadBulk(s);
      if b.Got? {
        DropAppend(s, more, b.next);
        BulksStable(s[b.next..], more, count - 1);
      }
    }
  }

  // Complete and Malformed are final: appending bytes changes neither the arguments nor the end.
  lemma ParseStable(s: string, more: string)
    requires !ParseArray(s).NeedMore?
    ensures ParseArray(s + more) == ParseArray(s)
  {
    hide ReadHeader, ReadBulks;
    var h := ReadHeader(s, '*', MAX_ARGS);
    HeaderStable(s, more, '*', MAX_ARGS);
    if h.Number? {
      assert (s + more)[h.next..] == s[h.next..] + more;
      BulksStable(s[h.next..], more, h.value);
    }
  }

  // -------- encoding --------

  function EncodeHeader(prefix: char, n: nat): string {
    [prefix] + ToDec(n) + "\r\n"
  }

  function EncodeBulk(a: string): string {
    EncodeHeader('$', |a|) + a + "\r\n"
  }

  function EncodeBulks(args: seq<string>): string {
    if args == [] then [] else EncodeBulk(args[0]) + EncodeBulks(args[1..])
  }

  function Encode(args: seq<string>): string {
    EncodeHeader('*', |args|) + EncodeBulks(args)
  }

  lemma {:induction false} FindCrlfAfter(clean: string, rest: string)
    requires forall i :: 0 <= i < |clean| ==> clean[i] != '\r'
    ensures FindCrlf(clean + "\r\n" + rest) == Some(|clean|)
  {
    var w := clean + "\r\n" + rest;
    if clean != [] {
      assert w[1..] == clean[1..] + "\r\n" + rest;
      FindCrlfAfter(clean[1..], rest);
    }
  }

  lemma WindowOf(head: string, rest: string)
    requires |head| <= MAX_HEADER
    ensures var s := head + rest;
            s[..Min(MAX_HEADER, |s|)] == head + rest[..Min(MAX_HEADER, |s|) - |head|]
  {
  }

  lemma HeaderReads(s: string, w: string, digits: string, prefix: char, max: nat)
    requires s != [] && s[0] == prefix && w == s[..Min(MAX_HEADER, |s|)]
    requires FindCrlf(w) == Some(|digits| + 1) && w[1..|digits| + 1] == digits
    requires digits != [] && AllDigits(digits) && Value(digits) <= max
    ensures ReadHeader(s, prefix, max) == Number(|digits| + 3, Value(digits))
  {
    hide FindCrlf, Value, AllDigits;
  }

  lemma HeaderOfDigits(prefix: char, digits: string, max: nat, rest: string)
    requires prefix != '\r' && AllDigits(digits) && 0 < |digits| <= MAX_HEADER - 3 && Value(digits) <= max
    ensures ReadHeader([prefix] + digits + "\r\n" + rest, prefix, max) == Number(|digits| + 3, Value(digits))
  {
    hide Value, FindCrlf, ReadHeader;
    var clean := [prefix] + digits;
    var s := clean + "\r\n" + rest;
    WindowOf(clean + "\r\n", rest);
    var w := s[..Min(MAX_HEADER, |s|)];
    FindCrlfAfter(clean, rest[..Min(MAX_HEADER, |s|) - |clean| - 2]);
    assert w[1..|digits| + 1] == digits;
    HeaderReads(s, w, digits, prefix, max);
  }

  lemma HeaderRoundTrip(prefix: char, n: nat, max: nat, rest: string)
    requires n <= max <= MAX_BULK && prefix != '\r'
    ensures ReadHeader(EncodeHeader(prefix, n) + rest, prefix, max) == Number(|EncodeHeader(prefix, n)|, n)
  {
    hide ReadHeader, ToDec, Value;
    ToDecValue(n);
    assert Pow10(9) == 1000000000 by { assert Pow10(3) == 1000; assert Pow10(6) == 1000000; }
    ToDecLength(n, 9);
    HeaderOfDigits(prefix, ToDec(n), max, rest);
  }

  lemma BulkRoundTrip(a: string, rest: string)
    requires |a| <= MAX_BULK
    ensures ReadBulk(EncodeBulk(a) + rest) == Got(a, |EncodeBulk(a)|)
  {
    hide ReadHeader, EncodeHeader;
    var h := EncodeHeader('$', |a|);
    var s := EncodeBulk(a) + rest;
    assert s == h + (a + "\r\n" + rest);
    HeaderRoundTrip('$', |a|, MAX_BULK, a + "\r\n" + rest);
    assert s[|h|..|h| + |a|] == a;
    assert s[|h| + |a|] == '\r' && s[|h| + |a| + 1] == '\n';
  }

  lemma {:induction false} BulksRoundTrip(args: seq<string>, rest: string)
    requires InLimitEach(args)
    ensures ReadBulks(EncodeBulks(args) + rest, |args|) == Complete(|EncodeBulks(args)|, args)
  {
    hide ReadBulk, EncodeBulk;
    if args != [] {
      var first, tail := EncodeBulk(args[0]), EncodeBulks(args[1..]);
      Regroup(first, tail, rest);
      BulkRoundTrip(args[0], tail + rest);
      BulksRoundTrip(args[1..], rest);
      assert [args[0]] + args[1..] == args;
    }
  }

  lemma Regroup(a: string, b: string, c: string)
    ensures (a + b) + c == a + (b + c)
    ensures (a + (b + c))[|a|..] == b + c
  {
  }

  // An encoded list followed by any bytes parses to itself, ending exactly where it ends.
  lemma RoundTrip(args: seq<string>, rest: string)
    requires InLimit(args)
    ensures ParseArray(Encode(args) + rest) == Complete(|Encode(args)|, args)
  {
    hide ReadHeader, ReadBulks, EncodeHeader, EncodeBulks;
    var h := EncodeHeader('*', |args|);
    Regroup(h, EncodeBulks(args), rest);
    HeaderRoundTrip('*', |args|, MAX_ARGS, EncodeBulks(args) + rest);
    BulksRoundTrip(args, rest);
  }

  // Every strict prefix of an encoding asks for more: a command cut anywhere is neither rejected nor run.
  lemma StrictPrefixNeedsMore(args: seq<string>, cut: nat)
    requires InLimit(args) && cut < |Encode(args)|
    ensures ParseArray(Encode(args)[..cut]) == NeedMore
  {
    RoundTrip(args, []);
    assert Encode(args) + [] == Encode(args);
    CutNeedsMore(Encode(args), cut);
  }

  lemma CutNeedsMore(whole: string, cut: nat)
    requires ParseArray(whole).Complete? && cut < ParseArray(whole).end
    ensures ParseArray(whole[..cut]) == NeedMore
  {
    hide ParseArray;
    if !ParseArray(whole[..cut]).NeedMore? {
      assert whole[..cut] + whole[cut..] == whole;
      ParseStable(whole[..cut], whole[cut..]);
    }
  }

  // Encoding is read back exactly when the list is within the limits.
  lemma RoundTripIff(args: seq<string>)
    ensures ParseArray(Encode(args)) == Complete(|Encode(args)|, args) <==> InLimit(args)
  {
    hide Encode;
    if InLimit(args) {
      RoundTrip(args, []);
      assert Encode(args) + [] == Encode(args);
    }
  }

  // -------- over the limits --------

  lemma HeaderOverLimit(prefix: char, n: nat, max: nat, rest: string)
    requires n > max && prefix != '\r'
    ensures ReadHeader(EncodeHeader(prefix, n) + rest, prefix, max) == Bad
  {
    hide ToDec, Value, FindCrlf;
    ToDecValue(n);
    var clean := [prefix] + ToDec(n);
    var s := EncodeHeader(prefix, n) + rest;
    assert s == clean + "\r\n" + rest;
    var w := s[..Min(MAX_HEADER, |s|)];
    if |clean| + 2 <= MAX_HEADER {
      WindowOf(clean + "\r\n", rest);
      FindCrlfAfter(clean, rest[..Min(MAX_HEADER, |s|) - |clean| - 2]);
      assert w[1..|clean|] == ToDec(n);
    } else {
      NoCrlfYet(clean, w);
    }
  }

  // A window that ends before the line does.
  lemma {:induction false} NoCrlfYet(clean: string, w: string)
    requires forall i :: 0 <= i < |clean| ==> clean[i] != '\r'
    requires |w| <= |clean| + 1 && w[..if |w| < |clean| then |w| else |clean|] <= clean
    ensures FindCrlf(w).None?
  {
    if |w| >= 2 {
      assert w[0] == clean[0];
      NoCrlfYet(clean[1..], w[1..]);
    }
  }

  lemma {:induction false} BulksOverLimit(args: seq<string>, rest: string)
    requires !InLimitEach(args)
    ensures ReadBulks(EncodeBulks(args) + rest, |args|) == Malformed
  {
    hide ReadBulk, EncodeBulk;
    var first, tail := EncodeBulk(args[0]), EncodeBulks(args[1..]);
    Regroup(first, tail, rest);
    if |args[0]| > MAX_BULK {
      BulkOverLimit(args[0], tail + rest);
    } else {
      BulkRoundTrip(args[0], tail + rest);
      assert !InLimitEach(args[1..]) by {
        var i :| 0 <= i < |args| && |args[i]| > MAX_BULK;
        assert args[1..][i - 1] == args[i];
      }
      BulksOverLimit(args[1..], rest);
    }
  }

  lemma BulkOverLimit(a: string, rest: string)
    requires |a| > MAX_BULK
    ensures ReadBulk(EncodeBulk(a) + rest) == BulkBad
  {
    hide ReadHeader, EncodeHeader;
    HeaderOverLimit('$', |a|, MAX_BULK, a + "\r\n" + rest);
    assert EncodeBulk(a) + rest == EncodeHeader('$', |a|) + (a + "\r\n" + rest);
  }

  // An encoded list over the limits is rejected wherever it stands.
  lemma OverLimitRejected(args: seq<string>, rest: string)
    requires !InLimit(args)
    ensures ParseArray(Encode(args) + rest) == Malformed
  {
    hide ReadHeader, ReadBulks, EncodeHeader, EncodeBulks, InLimitEach;
    var h := EncodeHeader('*', |args|);
    Regroup(h, EncodeBulks(args), rest);
    if |args| > MAX_ARGS {
      HeaderOverLimit('*', |args|, MAX_ARGS, EncodeBulks(args) + rest);
    } else {
      HeaderRoundTrip('*', |args|, MAX_ARGS, EncodeBulks(args) + rest);
      BulksOverLimit(args, rest);
    }
  }
}
