/** Inline commands: a line split into arguments, with quotes and escapes, and how to write any argument that way. */
module Inline {
  import opened Wrappers

  predicate Space(c: char) {
    c == ' ' || 9 <= c as int <= 13
  }

  predicate Hex(c: char) {
    '0' <= c <= '9' || 'a' <= c <= 'f' || 'A' <= c <= 'F'
  }

  function HexValue(c: char): (v: nat)
    requires Hex(c)
    ensures v < 16
  {
    if c <= '9' then c as int - '0' as int
    else if c <= 'F' then c as int - 'A' as int + 10
    else c as int - 'a' as int + 10
  }

  function Byte(high: char, low: char): char
    requires Hex(high) && Hex(low)
  {
    (16 * HexValue(high) + HexValue(low)) as char
  }

  function Escape(c: char): char {
    if c == 'n' then '\n' else if c == 'r' then '\r' else if c == 't' then '\t'
    else if c == 'b' then 8 as char else if c == 'a' then 7 as char else c
  }

  // -------- one argument --------

  // What a piece of a line adds to an argument, and how many characters it takes.
  datatype Piece = Piece(text: string, taken: nat)

  // Inside quotes of kind q, an escape or a plain character.
  function Quoted(s: string, q: char): (p: Piece)
    requires s != []
    ensures 0 < p.taken <= |s|
  {
    if s[0] == '\\' && |s| > 1 then
      if q == '\'' then Piece(if s[1] == '\'' then "'" else ['\\', s[1]], 2)
      else if s[1] == 'x' && |s| >= 4 && Hex(s[2]) && Hex(s[3]) then Piece([Byte(s[2], s[3])], 4)
      else Piece([Escape(s[1])], 2)
    else Piece([s[0]], 1)
  }

  datatype Word = Word(value: string, next: nat) | Unbalanced {
    function After(text: string, taken: nat): Word {
      match this
      case Word(value, next) => Word(text + value, taken + next)
      case Unbalanced => Unbalanced
    }
  }

  // The rest of an argument, from outside (quote None) or inside quotes.
  function ReadWord(s: string, quote: Option<char>): (w: Word)
    ensures w.Word? ==> w.next <= |s|
    decreases |s|
  {
    match quote
    case None =>
      if s == [] || Space(s[0]) then Word([], 0)
      else if s[0] == '"' || s[0] == '\'' then ReadWord(s[1..], Some(s[0])).After([], 1)
      else ReadWord(s[1..], None).After([s[0]], 1)
    case Some(q) =>
      if s == [] then Unbalanced
      else if s[0] == q then
        if |s| > 1 && !Space(s[1]) then Unbalanced else ReadWord(s[1..], None).After([], 1)
      else
        var p := Quoted(s, q);
        ReadWord(s[p.taken..], Some(q)).After(p.text, p.taken)
  }

  function SkipSpaces(s: string): (n: nat)
    ensures n <= |s| && (n < |s| ==> !Space(s[n]))
    ensures forall i :: 0 <= i < n ==> Space(s[i])
  {
    if s != [] && Space(s[0]) then 1 + SkipSpaces(s[1..]) else 0
  }

  lemma WordAdvances(s: string)
    requires s != [] && !Space(s[0]) && ReadWord(s, None).Word?
    ensures ReadWord(s, None).next > 0
  {
  }

  // The arguments of a line, or None when its quotes are unbalanced.
  function Split(s: string): Option<seq<string>>
    decreases |s|
  {
    var t := s[SkipSpaces(s)..];
    if t == [] then Some([])
    else
      match ReadWord(t, None)
      case Unbalanced => None
      case Word(value, next) =>
        WordAdvances(t);
        match Split(t[next..])
        case None => None
        case Some(rest) => Some([value] + rest)
  }

  // -------- the loops --------

  method NextWord(line: string, start: nat) returns (ok: bool, arg: string, i: nat)
    requires start <= |line|
    ensures ok ==> start <= i <= |line| && ReadWord(line[start..], None) == Word(arg, i - start)
    ensures !ok ==> ReadWord(line[start..], None) == Unbalanced
  {
    hide ReadWord, Quoted;
    ghost var whole := ReadWord(line[start..], None);
    arg, i := "", start;
    var quote: Option<char> := None;
    WordStart(whole);
    while i < |line|
      invariant start <= i <= |line|
      invariant ReadWord(line[i..], quote).After(arg, i - start) == whole
      decreases |line| - i
    {
      var rest := line[i..];
      WordStep(rest, quote, arg, i - start, whole);
      var ch := line[i];
      if quote.None? {
        if Space(ch) { break; }
        if ch == '"' || ch == '\'' { quote := Some(ch); } else { arg := arg + [ch]; }
        i := i + 1;
      } else if ch == quote.value {
        quote := None;
        if i + 1 < |line| && !Space(line[i + 1]) { return false, arg, i; }
        i := i + 1;
      } else {
        var p := Quoted(rest, quote.value);
        arg := arg + p.text;
        i := i + p.taken;
      }
    }
    WordEnd(line[i..], quote, arg, i - start, whole);
    ok := quote.None?;
  }

  lemma WordStart(w: Word)
    ensures w.After([], 0) == w
  {
  }

  lemma WordEnd(s: string, quote: Option<char>, arg: string, n: nat, whole: Word)
    requires ReadWord(s, quote).After(arg, n) == whole && (s == [] || (quote.None? && Space(s[0])))
    ensures whole == if quote.None? then Word(arg, n) else Unbalanced
  {
    assert arg + [] == arg;
  }

  lemma AfterAfter(w: Word, a: string, n: nat, b: string, m: nat)
    ensures w.After(b, m).After(a, n) == w.After(a + b, n + m)
  {
    if w.Word? { assert a + (b + w.value) == (a + b) + w.value; }
  }

  lemma WordStep(s: string, quote: Option<char>, arg: string, n: nat, whole: Word)
    requires s != [] && ReadWord(s, quote).After(arg, n) == whole
    ensures match quote
            case None =>
              if Space(s[0]) then true
              else if s[0] == '"' || s[0] == '\'' then ReadWord(s[1..], Some(s[0])).After(arg, n + 1) == whole
              else ReadWord(s[1..], None).After(arg + [s[0]], n + 1) == whole
            case Some(q) =>
              if s[0] == q then
                if |s| > 1 && !Space(s[1]) then whole == Unbalanced else ReadWord(s[1..], None).After(arg, n + 1) == whole
              else ReadWord(s[Quoted(s, q).taken..], Some(q)).After(arg + Quoted(s, q).text, n + Quoted(s, q).taken) == whole
  {
    hide Quoted;
    assert arg + [] == arg;
    match quote
    case None =>
      if !Space(s[0]) {
        if s[0] == '"' || s[0] == '\'' {
          AfterAfter(ReadWord(s[1..], Some(s[0])), arg, n, [], 1);
        } else {
          AfterAfter(ReadWord(s[1..], None), arg, n, [s[0]], 1);
        }
      }
    case Some(q) =>
      if s[0] == q {
        AfterAfter(ReadWord(s[1..], None), arg, n, [], 1);
      } else {
        var p := Quoted(s, q);
        AfterAfter(ReadWord(s[p.taken..], Some(q)), arg, n, p.text, p.taken);
      }
  }

  method SplitInline(line: string) returns (r: Option<seq<string>>)
    ensures r == Split(line)
  {
    hide Split, ReadWord;
    var args: seq<string> := [];
    var i := 0;
    assert line[0..] == line;
    SplitStart(line);
    while true
      invariant 0 <= i <= |line|
      invariant Prepend(args, Split(line[i..])) == Split(line)
      decreases |line| - i
    {
      ghost var at := i;
      while i < |line| && Space(line[i])
        invariant at <= i <= |line|
        invariant SkipSpaces(line[at..]) == i - at + SkipSpaces(line[i..])
      {
        assert line[i..][1..] == line[i + 1..];
        i := i + 1;
      }
      assert SkipSpaces(line[i..]) == 0;
      assert line[at..][i - at..] == line[i..];
      SplitStep(line[at..], args, Split(line));
      if i == |line| { return Some(args); }
      var ok, arg, next := NextWord(line, i);
      if !ok { return None; }
      assert line[i..][next - i..] == line[next..];
      args := args + [arg];
      i := next;
    }
  }

  function Prepend(args: seq<string>, rest: Option<seq<string>>): Option<seq<string>> {
    match rest
    case None => None
    case Some(more) => Some(args + more)
  }

  lemma SplitStart(line: string)
    ensures Prepend([], Split(line)) == Split(line)
  {
    if Split(line).Some? { assert [] + Split(line).value == Split(line).value; }
  }

  lemma SplitStep(s: string, args: seq<string>, whole: Option<seq<string>>)
    requires Prepend(args, Split(s)) == whole
    ensures var t := s[SkipSpaces(s)..];
            if t == [] then whole == Some(args)
            else match ReadWord(t, None)
                 case Unbalanced => whole == None
                 case Word(value, next) => next > 0 && Prepend(args + [value], Split(t[next..])) == whole
  {
    var t := s[SkipSpaces(s)..];
    if t == [] {
      assert args + [] == args;
    } else {
      var w := ReadWord(t, None);
      if w.Word? {
        WordAdvances(t);
        var rest := Split(t[w.next..]);
        if rest.Some? { assert args + ([w.value] + rest.value) == (args + [w.value]) + rest.value; }
      }
    }
  }

  // -------- every argument list has a line --------

  function QuoteChar(c: char): (s: string)
    ensures s != [] && '\n' !in s && '\r' !in s
  {
    if c == '"' || c == '\\' then ['\\', c]
    else if c == '\n' then "\\n" else if c == '\r' then "\\r" else [c]
  }

  function QuoteBody(a: string): (s: string)
    ensures '\n' !in s && '\r' !in s
  {
    if a == [] then [] else QuoteChar(a[0]) + QuoteBody(a[1..])
  }

  function Quote(a: string): (s: string)
    ensures '\n' !in s && '\r' !in s && |s| >= 2
  {
    "\"" + QuoteBody(a) + "\""
  }

  function Line(args: seq<string>): (s: string)
    ensures '\n' !in s && '\r' !in s
  {
    if args == [] then []
    else Quote(args[0]) + (if |args| == 1 then [] else " " + Line(args[1..]))
  }

  lemma QuotedChar(c: char, rest: string)
    ensures Quoted(QuoteChar(c) + rest, '"') == Piece([c], |QuoteChar(c)|) && QuoteChar(c)[0] != '"'
  {
  }

  lemma {:induction false} ReadQuoted(a: string, tail: string)
    requires tail == [] || Space(tail[0])
    ensures ReadWord(QuoteBody(a) + ("\"" + tail), Some('"')) == Word(a, |QuoteBody(a)| + 1)
  {
    hide Quoted, QuoteChar;
    if a == [] {
      var s := "\"" + tail;
      assert QuoteBody(a) + s == s && s[1..] == tail;
      assert ReadWord(tail, None) == Word([], 0);
    } else {
      var q, body := QuoteChar(a[0]), QuoteBody(a[1..]);
      var rest := body + ("\"" + tail);
      assert QuoteBody(a) + ("\"" + tail) == q + rest;
      QuotedChar(a[0], rest);
      ReadQuoted(a[1..], tail);
      assert (q + rest)[|q|..] == rest && (q + rest)[0] == q[0];
      assert [a[0]] + a[1..] == a;
    }
  }

  lemma QuoteOpens(rest: string)
    ensures ReadWord("\"" + rest, None) == ReadWord(rest, Some('"')).After([], 1)
  {
    var s := "\"" + rest;
    assert s[0] == '"' && s[1..] == rest;
  }

  lemma QuoteRoundTrip(a: string, tail: string)
    requires tail == [] || Space(tail[0])
    ensures ReadWord(Quote(a) + tail, None) == Word(a, |Quote(a)|)
  {
    hide QuoteBody, ReadWord;
    ReadQuoted(a, tail);
    QuoteOpens(QuoteBody(a) + ("\"" + tail));
    assert Quote(a) + tail == "\"" + (QuoteBody(a) + ("\"" + tail));
    assert [] + a == a;
  }

  // Every list of arguments, whatever bytes they hold, is the meaning of some line without a line break in it.
  lemma {:induction false} LineRoundTrip(args: seq<string>)
    ensures Split(Line(args)) == Some(args)
  {
    hide ReadWord, Quote;
    if args != [] {
      var tail := if |args| == 1 then [] else " " + Line(args[1..]);
      var s := Line(args);
      QuoteRoundTrip(args[0], tail);
      assert s == Quote(args[0]) + tail && s[|Quote(args[0])|..] == tail;
      QuoteHead(args[0]);
      assert SkipSpaces(s) == 0 && s[0..] == s;
      LineRoundTrip(args[1..]);
      if |args| == 1 {
        assert args[1..] == [];
      } else {
        SplitAfterSpace(Line(args[1..]));
      }
      assert [args[0]] + args[1..] == args;
    }
  }

  lemma QuoteHead(a: string)
    ensures Quote(a)[0] == '"'
  {
  }

  lemma SplitAfterSpace(s: string)
    ensures Split(" " + s) == Split(s)
  {
    var t := " " + s;
    assert t[1..] == s && SkipSpaces(t) == 1 + SkipSpaces(s);
    assert t[SkipSpaces(t)..] == s[SkipSpaces(s)..];
  }

  // -------- every spelling --------

  // A word so spelled, at the end of a line or before a space, is read as that value.
  ghost predicate SpellsWord(w: string, value: string) {
    && w != [] && !Space(w[0])
    && forall tail: string :: tail == [] || Space(tail[0]) ==> ReadWord(w + tail, None) == Word(value, |w|)
  }

  // Bare characters stand for themselves.
  predicate Bare(w: string) {
    forall i :: 0 <= i < |w| ==> !Space(w[i]) && w[i] != '"' && w[i] != '\''
  }

  lemma {:induction false} ReadBare(w: string, rest: string)
    requires Bare(w)
    ensures ReadWord(w + rest, None) == ReadWord(rest, None).After(w, |w|)
  {
    if w == [] {
      assert w + rest == rest;
      WordStart(ReadWord(rest, None));
    } else {
      var s := w + rest;
      assert s[0] == w[0] && s[1..] == w[1..] + rest;
      ReadBare(w[1..], rest);
      AfterAfter(ReadWord(rest, None), [w[0]], 1, w[1..], |w| - 1);
      assert [w[0]] + w[1..] == w;
    }
  }

  // So a word may start bare and end in quotes.
  lemma BareThenQuoted(w: string, a: string)
    requires Bare(w)
    ensures SpellsWord(w + Quote(a), w + a)
  {
    hide ReadWord, Quote;
    QuoteHead(a);
    forall tail: string | tail == [] || Space(tail[0])
      ensures ReadWord(w + Quote(a) + tail, None) == Word(w + a, |w + Quote(a)|)
    {
      QuoteRoundTrip(a, tail);
      assert w + Quote(a) + tail == w + (Quote(a) + tail);
      ReadBare(w, Quote(a) + tail);
    }
  }

  lemma BareWord(w: string)
    requires Bare(w) && w != []
    ensures SpellsWord(w, w)
  {
    hide ReadWord;
    forall tail: string | tail == [] || Space(tail[0])
      ensures ReadWord(w + tail, None) == Word(w, |w|)
    {
      ReadBare(w, tail);
      NothingLeft(tail);
      assert w + [] == w;
    }
  }

  lemma NothingLeft(tail: string)
    requires tail == [] || Space(tail[0])
    ensures ReadWord(tail, None) == Word([], 0)
  {
  }

  // Single quotes keep everything but the quote itself; backslashes too, unless a quote follows.
  lemma {:induction false} ReadSingle(a: string, tail: string)
    requires '\'' !in a && '\\' !in a && (tail == [] || Space(tail[0]))
    ensures ReadWord(a + ("'" + tail), Some('\'')) == Word(a, |a| + 1)
  {
    if a == [] {
      var s := "'" + tail;
      assert a + s == s && s[1..] == tail;
      NothingLeft(tail);
    } else {
      var s := a + ("'" + tail);
      assert s[0] == a[0] && a[0] in a && s[1..] == a[1..] + ("'" + tail);
      ReadSingle(a[1..], tail);
      assert [a[0]] + a[1..] == a;
    }
  }

  lemma SingleQuoted(a: string)
    requires '\'' !in a && '\\' !in a
    ensures SpellsWord("'" + a + "'", a)
  {
    hide ReadWord;
    forall tail: string | tail == [] || Space(tail[0])
      ensures ReadWord("'" + a + "'" + tail, None) == Word(a, |"'" + a + "'"|)
    {
      ReadSingle(a, tail);
      SingleOpens(a + ("'" + tail));
      assert "'" + a + "'" + tail == "'" + (a + ("'" + tail));
      assert [] + a == a;
    }
  }

  lemma SingleOpens(rest: string)
    ensures ReadWord("'" + rest, None) == ReadWord(rest, Some('\'')).After([], 1)
  {
    var s := "'" + rest;
    assert s[0] == '\'' && s[1..] == rest;
  }

  // The escapes: five letters and any byte by its two hexadecimal digits inside double quotes, where any other escaped
  // character stands for itself; only the quote inside single ones.
  lemma EscapesMean(rest: string, c: char)
    ensures Quoted("\\n" + rest, '"') == Piece([10 as char], 2) && Quoted("\\r" + rest, '"') == Piece([13 as char], 2)
    ensures Quoted("\\t" + rest, '"') == Piece([9 as char], 2) && Quoted("\\b" + rest, '"') == Piece([8 as char], 2)
    ensures Quoted("\\a" + rest, '"') == Piece([7 as char], 2)
    ensures c !in "nrtbax" ==> Quoted(['\\', c] + rest, '"') == Piece([c], 2)
    ensures Quoted("\\'" + rest, '\'') == Piece("'", 2)
    ensures c != '\'' ==> Quoted(['\\', c] + rest, '\'') == Piece(['\\', c], 2)
  {
  }

  lemma HexMeans(high: nat, low: nat, rest: string)
    requires high < 16 && low < 16
    ensures var digits := "0123456789abcdef";
            Quoted(['\\', 'x', digits[high], digits[low]] + rest, '"') == Piece([(16 * high + low) as char], 4)
    ensures var digits := "0123456789ABCDEF";
            Quoted(['\\', 'x', digits[high], digits[low]] + rest, '"') == Piece([(16 * high + low) as char], 4)
  {
    HexDigit(high);
    HexDigit(low);
  }

  lemma HexDigit(d: nat)
    requires d < 16
    ensures Hex("0123456789abcdef"[d]) && HexValue("0123456789abcdef"[d]) == d
    ensures Hex("0123456789ABCDEF"[d]) && HexValue("0123456789ABCDEF"[d]) == d
  {
  }

  predicate Blank(gap: string) {
    forall i :: 0 <= i < |gap| ==> Space(gap[i])
  }

  // Words with gaps around them, those between words not empty.
  function Spaced(gaps: seq<string>, words: seq<string>): string
    requires |gaps| == |words| + 1
  {
    if words == [] then gaps[0] else gaps[0] + words[0] + Spaced(gaps[1..], words[1..])
  }

  // However its words are spelled and spaced, a line is split into their values.
  lemma {:induction false} SpelledLine(gaps: seq<string>, words: seq<string>, values: seq<string>)
    requires |gaps| == |words| + 1 == |values| + 1
    requires forall i :: 0 <= i < |gaps| ==> Blank(gaps[i]) && (0 < i < |words| ==> gaps[i] != [])
    requires forall i :: 0 <= i < |words| ==> SpellsWord(words[i], values[i])
    ensures Split(Spaced(gaps, words)) == Some(values)
  {
    hide ReadWord, Blank, SpellsWord, Split, SkipSpaces;
    if words == [] {
      LastGap(gaps[0]);
    } else {
      var rest := Spaced(gaps[1..], words[1..]);
      assert Spaced(gaps, words) == gaps[0] + (words[0] + rest);
      SpacedHead(gaps[1..], words[1..]);
      SpelledLine(gaps[1..], words[1..], values[1..]);
      NextSpelled(gaps[0], words[0], values[0], rest, values[1..]);
      assert [values[0]] + values[1..] == values;
    }
  }

  lemma LastGap(gap: string)
    requires Blank(gap)
    ensures Split(gap) == Some([])
  {
    SkipBlank(gap, []);
    assert gap + [] == gap;
  }

  lemma NextSpelled(gap: string, word: string, value: string, rest: string, values: seq<string>)
    requires Blank(gap) && SpellsWord(word, value) && (rest == [] || Space(rest[0])) && Split(rest) == Some(values)
    ensures Split(gap + (word + rest)) == Some([value] + values)
  {
    hide ReadWord;
    SkipBlank(gap, word + rest);
    assert ReadWord(word + rest, None) == Word(value, |word|);
    assert (word + rest)[|word|..] == rest;
  }

  lemma SpacedHead(gaps: seq<string>, words: seq<string>)
    requires |gaps| == |words| + 1 && Blank(gaps[0]) && (words != [] ==> gaps[0] != [])
    ensures Spaced(gaps, words) == [] || Space(Spaced(gaps, words)[0])
  {
  }

  lemma {:induction false} SkipBlank(gap: string, rest: string)
    requires Blank(gap) && (rest == [] || !Space(rest[0]))
    ensures SkipSpaces(gap + rest) == |gap| && (gap + rest)[|gap|..] == rest
  {
    if gap == [] {
      assert gap + rest == rest;
    } else {
      assert (gap + rest)[1..] == gap[1..] + rest;
      SkipBlank(gap[1..], rest);
    }
  }

  // A quote that is not closed, or is closed before anything but a space, makes the whole line refused.
  lemma BadQuotesRefused(a: string, rest: string, c: char)
    requires !Space(c)
    ensures Split("\"" + QuoteBody(a)).None? && Split(Quote(a) + [c] + rest).None?
  {
    hide QuoteBody;
    Unclosed(a);
    ClosedEarly(a, rest, c);
    var s, t := "\"" + QuoteBody(a), Quote(a) + [c] + rest;
    QuoteOpens(QuoteBody(a));
    QuoteOpens(QuoteBody(a) + ("\"" + [c] + rest));
    assert t == "\"" + (QuoteBody(a) + ("\"" + [c] + rest));
    assert s[0] == '"' && t[0] == '"' && SkipSpaces(s) == 0 && SkipSpaces(t) == 0 && s[0..] == s && t[0..] == t;
  }

  lemma {:induction false} Unclosed(a: string)
    ensures ReadWord(QuoteBody(a), Some('"')) == Unbalanced
  {
    hide Quoted, QuoteChar;
    if a != [] {
      var q, body := QuoteChar(a[0]), QuoteBody(a[1..]);
      QuotedChar(a[0], body);
      Unclosed(a[1..]);
      assert (q + body)[|q|..] == body && (q + body)[0] == q[0];
    }
  }

  lemma {:induction false} ClosedEarly(a: string, rest: string, c: char)
    requires !Space(c)
    ensures ReadWord(QuoteBody(a) + ("\"" + [c] + rest), Some('"')) == Unbalanced
  {
    hide Quoted, QuoteChar;
    var tail := "\"" + [c] + rest;
    if a == [] {
      assert QuoteBody(a) + tail == tail && tail[0] == '"' && tail[1] == c;
    } else {
      var q, body := QuoteChar(a[0]), QuoteBody(a[1..]);
      QuotedChar(a[0], body + tail);
      ClosedEarly(a[1..], rest, c);
      assert QuoteBody(a) + tail == q + (body + tail);
      assert (q + (body + tail))[|q|..] == body + tail && (q + (body + tail))[0] == q[0];
    }
  }
}
