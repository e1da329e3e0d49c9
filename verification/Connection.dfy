/** A client connection: however its bytes arrive, it runs the commands of the stream as a whole. */
module Connection {
  import opened Wrappers
  import opened Resp
  import opened Inline
  import opened LogMeaning

  const MAX_INLINE: nat := 64 * 1024
  const MAX_COMMANDS_PER_TURN: nat := 8192

  function FindLf(w: string): (r: Option<nat>)
    ensures r.Some? ==> r.value < |w| && w[r.value] == '\n'
  {
    if w == [] then None
    else if w[0] == '\n' then Some(0)
    else match FindLf(w[1..])
         case Some(i) => Some(i + 1)
         case None => None
  }

  function WithoutCr(line: string): string {
    if line != [] && line[|line| - 1] == '\r' then line[..|line| - 1] else line
  }

  function InlineRequest(w: string): (r: Parsed)
    ensures r.Complete? ==> 0 < r.end <= |w|
  {
    match FindLf(w)
    case None => if |w| < MAX_INLINE then NeedMore else Malformed
    case Some(nl) =>
      match Split(WithoutCr(w[..nl]))
      case None => Malformed
      case Some(args) => Complete(nl + 1, args)
  }

  // One request at the head of s: an array, or a line within the window.
  function Request(s: string): (r: Parsed)
    ensures r.Complete? ==> 0 < r.end <= |s|
  {
    if s == [] || s[0] == '*' then ParseArray(s) else InlineRequest(s[..Min(MAX_INLINE, |s|)])
  }

  lemma {:induction false} FindLfStable(w: string, more: string)
    requires FindLf(w).Some?
    ensures FindLf(w + more) == FindLf(w)
  {
    if w[0] != '\n' {
      FindLfStable(w[1..], more);
      assert (w + more)[1..] == w[1..] + more;
    }
  }

  lemma InlineStable(w: string, more: string)
    requires !InlineRequest(w).NeedMore? && (FindLf(w).None? ==> more == [])
    ensures InlineRequest(w + more) == InlineRequest(w)
  {
    hide FindLf, Split;
    if FindLf(w).Some? {
      FindLfStable(w, more);
      assert (w + more)[..FindLf(w).value] == w[..FindLf(w).value];
    } else {
      assert w + more == w;
    }
  }

  // A verdict on a request is final: later bytes change neither its arguments nor its end.
  lemma RequestStable(s: string, more: string)
    requires !Request(s).NeedMore?
    ensures Request(s + more) == Request(s)
  {
    hide ParseArray, InlineRequest;
    if s == [] || s[0] == '*' {
      if s == [] { EmptyNeedsMore(); }
      ParseStable(s, more);
    } else {
      var w, wm := s[..Min(MAX_INLINE, |s|)], (s + more)[..Min(MAX_INLINE, |s + more|)];
      WindowGrows(s, more, MAX_INLINE);
      var grown := wm[|w|..];
      assert wm == w + grown;
      InlineVerdict(w);
      InlineStable(w, grown);
    }
  }

  lemma InlineVerdict(w: string)
    ensures !InlineRequest(w).NeedMore? && FindLf(w).None? ==> |w| >= MAX_INLINE
  {
  }

  // Every argument list can also be sent as a line.
  lemma InlineRoundTrip(args: seq<string>, rest: string)
    requires args != [] && |Line(args)| < MAX_INLINE
    ensures Request(Line(args) + "\n" + rest) == Complete(|Line(args)| + 1, args)
  {
    hide Split, Line, ParseArray;
    var line := Line(args);
    var s := line + "\n" + rest;
    LineRoundTrip(args);
    LineHead(args);
    var w := s[..Min(MAX_INLINE, |s|)];
    assert w == line + "\n" + rest[..|w| - |line| - 1];
    FindLfAfter(line, rest[..|w| - |line| - 1]);
    assert w[..|line|] == line && WithoutCr(line) == line;
  }

  // A line ended by LF or CRLF is its arguments, or is refused when its quotes are unbalanced; without a line end it is
  // awaited as long as it may still fit the window, and refused after that.
  lemma InlineLine(line: string, eol: string, rest: string)
    requires line != [] && line[0] != '*' && '\n' !in line && line[|line| - 1] != '\r' && (eol == "\n" || eol == "\r\n")
    ensures |line| + |eol| <= 65536 ==>
              Request(line + eol + rest) == match Split(line)
                                            case Some(args) => Complete(|line| + |eol|, args)
                                            case None => Malformed
    ensures Request(line) == if |line| < 65536 then NeedMore else Malformed
  {
    hide InlineRequest, ParseArray, Split;
    NoLf(line[..Min(MAX_INLINE, |line|)]);
    NoLineEnd(line[..Min(MAX_INLINE, |line|)]);
    if |line| + |eol| <= MAX_INLINE {
      var s := line + eol + rest;
      var n := Min(MAX_INLINE, |s|);
      assert s[..n] == line + eol + rest[..n - |line| - |eol|];
      assert s[0] == line[0];
      LineEnd(line, eol, rest[..n - |line| - |eol|]);
    }
  }

  lemma LineEnd(line: string, eol: string, more: string)
    requires line != [] && '\n' !in line && line[|line| - 1] != '\r' && (eol == "\n" || eol == "\r\n")
    ensures InlineRequest(line + eol + more) == match Split(line)
                                                case Some(args) => Complete(|line| + |eol|, args)
                                                case None => Malformed
  {
    hide InlineRequest, Split, WithoutCr;
    StripCr(line);
    if eol == "\n" {
      CutLine(line, line, more);
    } else {
      assert line + eol + more == (line + "\r") + "\n" + more;
      CutLine(line + "\r", line, more);
    }
  }

  lemma StripCr(line: string)
    requires line != [] && line[|line| - 1] != '\r'
    ensures WithoutCr(line) == line && WithoutCr(line + "\r") == line
  {
    assert (line + "\r")[..|line|] == line;
  }

  lemma CutLine(cut: string, line: string, more: string)
    requires '\n' !in cut && WithoutCr(cut) == line
    ensures InlineRequest(cut + "\n" + more) == match Split(line)
                                                case Some(args) => Complete(|cut| + 1, args)
                                                case None => Malformed
  {
    hide Split, FindLf, WithoutCr;
    FindLfAfter(cut, more);
    assert (cut + "\n" + more)[..|cut|] == cut;
  }

  lemma NoLineEnd(w: string)
    requires FindLf(w).None?
    ensures InlineRequest(w) == if |w| < 65536 then NeedMore else Malformed
  {
  }

  lemma {:induction false} NoLf(w: string)
    requires '\n' !in w
    ensures FindLf(w).None?
  {
    if w != [] {
      assert w[0] in w;
      NoLf(w[1..]);
    }
  }

  lemma LineHead(args: seq<string>)
    requires args != []
    ensures Line(args) != [] && Line(args)[0] == '"' && '\n' !in Line(args) && '\r' !in Line(args)
  {
    QuoteHead(args[0]);
  }

  lemma {:induction false} FindLfAfter(line: string, rest: string)
    requires '\n' !in line
    ensures FindLf(line + "\n" + rest) == Some(|line|)
  {
    var s := line + "\n" + rest;
    if line != [] {
      assert line[0] in line && s[1..] == line[1..] + "\n" + rest;
      FindLfAfter(line[1..], rest);
    }
  }

  method ParseRequest(buf: string, pos: nat) returns (r: Parsed)
    requires pos <= |buf|
    ensures r == Request(buf[pos..]).Shift(pos)
  {
    hide Split, ParseArray;
    if pos == |buf| || buf[pos] == '*' {
      r := Parse(buf, pos);
      return;
    }
    var w := buf[pos..pos + Min(MAX_INLINE, |buf| - pos)];
    assert w == buf[pos..][..Min(MAX_INLINE, |buf| - pos)];
    var nl := FindLf(w);
    if nl.None? { return if |w| < MAX_INLINE then NeedMore else Malformed; }
    var args := SplitInline(WithoutCr(w[..nl.value]));
    r := if args.None? then Malformed else Complete(pos + nl.value + 1, args.value);
  }

  // -------- the stream as a whole --------

  datatype Ending = Waiting | Quit | Broken

  datatype Outcome = Outcome(cmds: seq<seq<string>>, ending: Ending) {
    function After(before: seq<seq<string>>): Outcome {
      Outcome(before + cmds, ending)
    }
  }

  function UpToNul(s: string): string {
    if s == [] || s[0] == '\0' then [] else [s[0]] + UpToNul(s[1..])
  }

  predicate IsQuit(args: seq<string>) {
    |args| == 1 && Upper(UpToNul(args[0])) == "QUIT"
  }

  // Parsing everything at once, up to the first QUIT, malformed or incomplete request.
  function Run(s: string): Outcome
    decreases |s|
  {
    match Request(s)
    case NeedMore => Outcome([], Waiting)
    case Malformed => Outcome([], Broken)
    case Complete(end, args) =>
      if IsQuit(args) then Outcome([], Quit) else Run(s[end..]).After([args])
  }

  // Running these commands from the head of the stream leaves these bytes.
  ghost predicate Reaches(stream: string, cmds: seq<seq<string>>, rest: string)
    decreases |cmds|
  {
    if cmds == [] then stream == rest
    else
      var r := Request(stream);
      r.Complete? && !IsQuit(r.args) && r.args == cmds[0] && Reaches(stream[r.end..], cmds[1..], rest)
  }

  lemma AfterSplit(o: Outcome, cmds: seq<seq<string>>)
    requires cmds != []
    ensures o.After(cmds[1..]).After([cmds[0]]) == o.After(cmds)
  {
    assert [cmds[0]] + (cmds[1..] + o.cmds) == cmds + o.cmds;
  }

  lemma {:induction false} ReachesRun(stream: string, cmds: seq<seq<string>>, rest: string)
    requires Reaches(stream, cmds, rest)
    ensures Run(stream) == Run(rest).After(cmds)
    decreases |cmds|
  {
    hide Request, IsQuit;
    if cmds == [] {
      assert [] + Run(rest).cmds == Run(rest).cmds;
    } else {
      ReachesRun(stream[Request(stream).end..], cmds[1..], rest);
      AfterSplit(Run(rest), cmds);
    }
  }

  lemma {:induction false} ReachesMore(stream: string, cmds: seq<seq<string>>, rest: string, more: string)
    requires Reaches(stream, cmds, rest)
    ensures Reaches(stream + more, cmds, rest + more)
    decreases |cmds|
  {
    hide Request, IsQuit;
    if cmds != [] {
      RequestStable(stream, more);
      var end := Request(stream).end;
      assert (stream + more)[end..] == stream[end..] + more;
      ReachesMore(stream[end..], cmds[1..], rest, more);
    }
  }

  lemma {:induction false} ReachesStep(stream: string, cmds: seq<seq<string>>, rest: string)
    requires Reaches(stream, cmds, rest) && Request(rest).Complete? && !IsQuit(Request(rest).args)
    ensures Reaches(stream, cmds + [Request(rest).args], rest[Request(rest).end..])
    decreases |cmds|
  {
    hide Request, IsQuit;
    var args := Request(rest).args;
    if cmds == [] {
      assert cmds + [args] == [args] && [args][1..] == [];
    } else {
      assert (cmds + [args])[1..] == cmds[1..] + [args] && (cmds + [args])[0] == cmds[0];
      ReachesStep(stream[Request(stream).end..], cmds[1..], rest);
    }
  }

  // What a closing request says.
  ghost predicate Closes(rest: string, ending: Ending) {
    match Request(rest)
    case NeedMore => false
    case Malformed => ending == Broken
    case Complete(_, args) => IsQuit(args) && ending == Quit
  }

  lemma ClosesRun(rest: string, ending: Ending)
    requires Closes(rest, ending)
    ensures Run(rest) == Outcome([], ending)
  {
  }

  lemma ClosesMore(rest: string, ending: Ending, more: string)
    requires Closes(rest, ending)
    ensures Closes(rest + more, ending)
  {
    hide Request;
    RequestStable(rest, more);
  }

  // -------- the connection --------

  datatype Step = More | Done | Drop

  class Client {
    var inBuf: string
    var executed: seq<seq<string>>
    var ending: Ending // Waiting while the connection is open

    // everything received, and what of it was not run
    ghost var stream: string
    ghost var pending: string

    ghost predicate Valid()
      reads this
    {
      && Reaches(stream, executed, pending)
      && (if ending.Waiting? then pending == inBuf else Closes(pending, ending))
    }

    constructor ()
      ensures Valid() && ending.Waiting? && stream == [] && executed == []
    {
      inBuf, executed, ending, stream, pending := "", [], Waiting, "", "";
    }

    // Bytes arrive in any pieces; after the connection closed nobody reads them.
    method Receive(chunk: string)
      requires Valid()
      modifies this`inBuf, this`stream, this`pending
      ensures Valid() && stream == old(stream) + chunk && ending == old(ending)
    {
      hide Reaches, Closes;
      ReachesMore(stream, executed, pending, chunk);
      stream, pending := stream + chunk, pending + chunk;
      if ending.Waiting? { inBuf := inBuf + chunk; } else { ClosesMore(old(pending), ending, chunk); }
    }

    // One turn: at most so many commands, parsed from an offset, the consumed input erased once.
    method Turn() returns (step: Step)
      requires Valid() && ending.Waiting?
      modifies this`inBuf, this`executed, this`ending, this`pending
      ensures Valid() && old(executed) <= executed
      ensures step.Drop? <==> !ending.Waiting?
      ensures step.Done? ==> Run(inBuf) == Outcome([], Waiting)
      ensures step.More? ==> |executed| == |old(executed)| + MAX_COMMANDS_PER_TURN
    {
      hide Reaches, Request, IsQuit, Closes;
      var processed, pos: nat := 0, 0;
      var st: Parsed := NeedMore;
      assert inBuf[0..] == inBuf;
      while processed < MAX_COMMANDS_PER_TURN
        invariant processed <= MAX_COMMANDS_PER_TURN && pos <= |inBuf|
        invariant pending == inBuf[pos..] && Reaches(stream, executed, pending)
        invariant |executed| == |old(executed)| + processed && old(executed) <= executed
        invariant processed == 0 || st.Complete?
        invariant inBuf == old(inBuf) && ending.Waiting?
      {
        st := ParseRequest(inBuf, pos);
        if !st.Complete? { break; }
        if IsQuit(st.args) {
          Quits(pending);
          inBuf, ending := inBuf[st.end..], Quit;
          return Drop;
        }
        ReachesStep(stream, executed, pending);
        DropDrop(inBuf, pos, st.end - pos);
        pos, processed := st.end, processed + 1;
        executed := executed + [st.args];
        pending := inBuf[pos..];
      }
      inBuf := inBuf[pos..];
      if st.Malformed? {
        Breaks(pending);
        ending := Broken;
        return Drop;
      }
      if processed == MAX_COMMANDS_PER_TURN && inBuf != [] { return More; }
      Waits(inBuf);
      step := Done;
    }

    // Whatever the reads and turns were, the commands run are those of the whole stream: all of them once the
    // connection closed or waits for more input, and a prefix of them in between.
    lemma RunsTheStream()
      requires Valid()
      ensures executed <= Run(stream).cmds
      ensures !ending.Waiting? ==> Run(stream) == Outcome(executed, ending)
      ensures ending.Waiting? && Run(inBuf) == Outcome([], Waiting) ==> Run(stream) == Outcome(executed, Waiting)
    {
      hide Reaches, Request, Closes;
      ReachesRun(stream, executed, pending);
      if !ending.Waiting? { ClosesRun(pending, ending); }
      assert executed + [] == executed;
    }
  }

  lemma Quits(rest: string)
    requires Request(rest).Complete? && IsQuit(Request(rest).args)
    ensures Closes(rest, Quit)
  {
  }

  lemma Breaks(rest: string)
    requires Request(rest).Malformed?
    ensures Closes(rest, Broken)
  {
  }

  lemma Waits(rest: string)
    requires rest == [] || Request(rest).NeedMore?
    ensures Run(rest) == Outcome([], Waiting)
  {
    if rest == [] { EmptyNeedsMore(); }
  }

  // -------- what ends a connection --------

  // QUIT in any case, alone; a terminating NUL and what follows it are not part of the name.
  predicate SaysQuit(args: seq<string>) {
    && |args| == 1 && |args[0]| >= 4 && (|args[0]| > 4 ==> args[0][4] == '\0')
    && args[0][0] in "Qq" && args[0][1] in "Uu" && args[0][2] in "Ii" && args[0][3] in "Tt"
  }

  lemma QuitIff(args: seq<string>)
    ensures IsQuit(args) <==> SaysQuit(args)
  {
    if |args| == 1 {
      UpToNulHead(args[0]);
      var name := UpToNul(args[0]);
      if |name| == 4 { assert Upper(name) == [UpperChar(name[0]), UpperChar(name[1]), UpperChar(name[2]), UpperChar(name[3])]; }
      if IsQuit(args) { assert Upper(name)[0] == 'Q' && Upper(name)[1] == 'U' && Upper(name)[2] == 'I' && Upper(name)[3] == 'T'; }
    }
  }

  lemma {:induction false} UpToNulHead(s: string)
    ensures |UpToNul(s)| <= |s| && UpToNul(s) == s[..|UpToNul(s)|] && '\0' !in UpToNul(s)
    ensures |UpToNul(s)| < |s| ==> s[|UpToNul(s)|] == '\0'
  {
    if s != [] && s[0] != '\0' { UpToNulHead(s[1..]); }
  }

  // An array sent as a request closes the connection exactly when it says QUIT; any other one is run, and the stream goes on.
  lemma OneRequest(args: seq<string>, rest: string)
    requires InLimit(args)
    ensures Run(Encode(args) + rest) == if SaysQuit(args) then Outcome([], Quit) else Run(rest).After([args])
  {
    hide ParseArray, IsQuit, SaysQuit, Encode, InlineRequest;
    QuitIff(args);
    RoundTrip(args, rest);
    EncodeHead(args);
    var s := Encode(args) + rest;
    assert s[0] == '*' && s[|Encode(args)|..] == rest;
  }

  lemma EncodeHead(args: seq<string>)
    ensures Encode(args) != [] && Encode(args)[0] == '*'
  {
  }
}
