/** The requests that the RESP parser accepts, as a grammar. */
module Grammar {
  import opened Decimal
  import opened Resp
  import opened Canonical

  // A prefix, decimal digits, leading zeros allowed, and CRLF, in at most 32 bytes.
  ghost predicate SpellsNumber(h: string, prefix: char, n: nat) {
    exists d :: h == [prefix] + d + "\r\n" && d != [] && AllDigits(d) && Value(d) == n && |h| <= 32
  }

  ghost predicate SpellsBulk(b: string, a: string) {
    |a| <= MAX_BULK && exists h :: SpellsNumber(h, '$', |a|) && b == h + a + "\r\n"
  }

  ghost predicate SpellsBulks(s: string, args: seq<string>)
    decreases |args|
  {
    if args == [] then s == []
    else exists b, t :: s == b + t && SpellsBulk(b, args[0]) && SpellsBulks(t, args[1..])
  }

  // The number of arguments, then each argument with its length.
  ghost predicate Spells(s: string, args: seq<string>) {
    |args| <= MAX_ARGS && exists h, body :: s == h + body && SpellsNumber(h, '*', |args|) && SpellsBulks(body, args)
  }

  lemma HeaderIff(h: string, rest: string, prefix: char, max: nat, n: nat)
    requires prefix != '\r'
    ensures ReadHeader(h + rest, prefix, max) == Number(|h|, n) <==> SpellsNumber(h, prefix, n) && n <= max
  {
    hide ReadHeader;
    if ReadHeader(h + rest, prefix, max) == Number(|h|, n) { HeaderSpelled(h, rest, prefix, max, n); }
    if SpellsNumber(h, prefix, n) && n <= max {
      var d :| h == [prefix] + d + "\r\n" && d != [] && AllDigits(d) && Value(d) == n && |h| <= 32;
      HeaderOfDigits(prefix, d, max, rest);
    }
  }

  lemma HeaderSpelled(h: string, rest: string, prefix: char, max: nat, n: nat)
    requires ReadHeader(h + rest, prefix, max) == Number(|h|, n)
    ensures SpellsNumber(h, prefix, n) && n <= max
  {
    hide FindCrlf, Value, AllDigits;
    var s := h + rest;
    var window := s[..Min(MAX_HEADER, |s|)];
    var crlf := FindCrlf(window).value;
    HeaderSlices(s, |window|, crlf);
    assert s[..crlf + 2] == h == [prefix] + window[1..crlf] + "\r\n";
  }

  lemma BulkIff(b: string, rest: string, a: string)
    ensures ReadBulk(b + rest) == Got(a, |b|) <==> SpellsBulk(b, a)
  {
    hide ReadHeader, SpellsNumber;
    var s := b + rest;
    if ReadBulk(s) == Got(a, |b|) {
      var p := ReadHeader(s, '$', MAX_BULK).next;
      assert s == s[..p] + s[p..];
      HeaderIff(s[..p], s[p..], '$', MAX_BULK, |a|);
      assert b == s[..p] + a + "\r\n";
    }
    if SpellsBulk(b, a) {
      var h :| SpellsNumber(h, '$', |a|) && b == h + a + "\r\n";
      assert s == h + (a + "\r\n" + rest);
      HeaderIff(h, a + "\r\n" + rest, '$', MAX_BULK, |a|);
      assert s[|h|..|h| + |a|] == a && s[|h| + |a|] == '\r' && s[|h| + |a| + 1] == '\n';
    }
  }

  lemma {:induction false} BulksIff(s: string, rest: string, args: seq<string>)
    ensures ReadBulks(s + rest, |args|) == Complete(|s|, args) <==> SpellsBulks(s, args)
    decreases |args|
  {
    hide ReadBulk, SpellsBulk;
    if args != [] {
      var all := s + rest;
      if ReadBulks(all, |args|) == Complete(|s|, args) { BulksSpelled(s, rest, args); }
      if SpellsBulks(s, args) {
        var b, t :| s == b + t && SpellsBulk(b, args[0]) && SpellsBulks(t, args[1..]);
        Regroup(b, t, rest);
        BulkIff(b, t + rest, args[0]);
        BulksIff(t, rest, args[1..]);
        assert [args[0]] + args[1..] == args;
      }
    }
  }

  lemma BulksSpelled(s: string, rest: string, args: seq<string>)
    requires args != [] && ReadBulks(s + rest, |args|) == Complete(|s|, args)
    ensures SpellsBulks(s, args)
    decreases |args|, 0
  {
    hide ReadBulk, ReadBulks, SpellsBulk, SpellsBulks;
    FirstRead(s + rest, |args|);
    var n := ReadBulk(s + rest).next;
    CutAt(s, rest, n);
    BulkIff(s[..n], s[n..] + rest, args[0]);
    BulksIff(s[n..], rest, args[1..]);
    SpellsMore(s[..n], s[n..], args);
  }

  lemma FirstRead(s: string, count: nat)
    requires count > 0 && ReadBulks(s, count).Complete?
    ensures ReadBulk(s).Got? && ReadBulks(s[ReadBulk(s).next..], count - 1).Complete?
    ensures var b, all := ReadBulk(s), ReadBulks(s, count);
            var tail := ReadBulks(s[b.next..], count - 1);
            all.args[0] == b.value && all.args[1..] == tail.args && all.end == b.next + tail.end
  {
    hide ReadBulk;
  }

  lemma CutAt(s: string, rest: string, n: nat)
    requires n <= |s|
    ensures s + rest == s[..n] + (s[n..] + rest) && (s + rest)[n..] == s[n..] + rest && s == s[..n] + s[n..]
  {
  }

  lemma SpellsMore(b: string, t: string, args: seq<string>)
    requires args != [] && SpellsBulk(b, args[0]) && SpellsBulks(t, args[1..])
    ensures SpellsBulks(b + t, args)
  {
    hide SpellsBulk;
  }

  // What the parser accepts is exactly the grammar, whatever bytes follow.
  lemma AcceptsIff(s: string, rest: string, args: seq<string>)
    ensures ParseArray(s + rest) == Complete(|s|, args) <==> Spells(s, args)
  {
    hide ReadHeader, ReadBulks, SpellsNumber, SpellsBulks;
    var all := s + rest;
    if ParseArray(all) == Complete(|s|, args) {
      var p := ReadHeader(all, '*', MAX_ARGS).next;
      var body := ReadBulks(all[p..], |args|);
      assert body == Complete(|s| - p, args);
      var h, t := s[..p], s[p..];
      assert all == h + (t + rest) && all[p..] == t + rest && s == h + t;
      HeaderIff(h, t + rest, '*', MAX_ARGS, |args|);
      BulksIff(t, rest, args);
    }
    if Spells(s, args) {
      var h, body :| s == h + body && SpellsNumber(h, '*', |args|) && SpellsBulks(body, args);
      Regroup(h, body, rest);
      HeaderIff(h, body + rest, '*', MAX_ARGS, |args|);
      BulksIff(body, rest, args);
    }
  }

  // -------- rejections --------

  // No length line within 32 bytes.
  ghost predicate NoLine(s: string) {
    |s| >= 32 && forall i :: 0 <= i < 31 ==> !(s[i] == '\r' && s[i + 1] == '\n')
  }

  // Not a bulk string: another prefix, an endless length line, or a value that CRLF does not follow.
  ghost predicate BrokenBulk(s: string) {
    || (s != [] && s[0] != '$')
    || NoLine(s)
    || exists h, a, x, y, more :: SpellsNumber(h, '$', |a|) && |a| <= MAX_BULK && s == h + a + [x, y] + more &&
         (x != '\r' || y != '\n')
  }

  lemma BrokenRead(s: string)
    requires BrokenBulk(s)
    ensures ReadBulk(s) == BulkBad
  {
    if (s != [] && s[0] != '$') || NoLine(s) {
    } else {
      hide ReadHeader, SpellsNumber;
      var h, a, x, y, more :| SpellsNumber(h, '$', |a|) && |a| <= MAX_BULK && s == h + a + [x, y] + more &&
                              (x != '\r' || y != '\n');
      HeaderIff(h, a + [x, y] + more, '$', MAX_BULK, |a|);
      assert s == h + (a + [x, y] + more);
      assert s[|h| + |a|] == x && s[|h| + |a| + 1] == y;
    }
  }

  lemma {:induction false} BrokenBulks(body: string, rest: string, args: seq<string>, count: nat)
    requires SpellsBulks(body, args) && |args| < count && BrokenBulk(rest)
    ensures ReadBulks(body + rest, count) == Malformed
    decreases |args|
  {
    hide ReadBulk, SpellsBulk, BrokenBulk;
    if args == [] {
      assert body + rest == rest;
      BrokenRead(rest);
    } else {
      var b, t :| body == b + t && SpellsBulk(b, args[0]) && SpellsBulks(t, args[1..]);
      Regroup(b, t, rest);
      BulkIff(b, t + rest, args[0]);
      BrokenBulks(t, rest, args[1..], count - 1);
    }
  }

  // A request that breaks the grammar after its count and any of its arguments is refused at once, whatever follows; so is
  // one that does not start as an array, or announces too many arguments.
  lemma BrokenRejected(h: string, n: nat, body: string, args: seq<string>, rest: string)
    requires SpellsNumber(h, '*', n)
    requires n > MAX_ARGS || (SpellsBulks(body, args) && |args| < n && BrokenBulk(rest))
    ensures ParseArray(h + body + rest) == Malformed
  {
    hide ReadHeader, ReadBulks, SpellsNumber, SpellsBulks, BrokenBulk;
    Regroup(h, body, rest);
    if n > MAX_ARGS {
      CountTooLarge(h, n, body + rest);
    } else {
      HeaderIff(h, body + rest, '*', MAX_ARGS, n);
      BrokenBulks(body, rest, args, n);
    }
  }

  lemma CountTooLarge(h: string, n: nat, rest: string)
    requires SpellsNumber(h, '*', n) && n > MAX_ARGS
    ensures ReadHeader(h + rest, '*', MAX_ARGS) == Bad
  {
    hide Value, FindCrlf;
    var d :| h == ['*'] + d + "\r\n" && d != [] && AllDigits(d) && Value(d) == n && |h| <= 32;
    var clean := ['*'] + d;
    var s := h + rest;
    WindowOf(clean + "\r\n", rest);
    FindCrlfAfter(clean, rest[..Min(MAX_HEADER, |s|) - |clean| - 2]);
    assert s[..Min(MAX_HEADER, |s|)][1..|d| + 1] == d;
  }

  lemma NotAnArray(s: string)
    requires (s != [] && s[0] != '*') || NoLine(s)
    ensures ParseArray(s) == Malformed
  {
  }
}
