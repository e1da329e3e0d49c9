/** Writes that the operating system may cut short. */
module FileIo {

  // One call of write: some bytes (none counts as a failure), an interruption, or an error.
  datatype Io = Wrote(n: nat) | Interrupted | Failed

  // How many of `len` bytes reach the file when the system answers with these calls.
  function Delivered(len: nat, calls: seq<Io>): (n: nat)
    ensures n <= len
  {
    if len == 0 || calls == [] then 0 else
    match calls[0]
    case Failed => 0
    case Interrupted => Delivered(len, calls[1..])
    case Wrote(n) =>
      if n == 0 then 0 else if n >= len then len else n + Delivered(len - n, calls[1..])
  }

  // A single call that takes everything up to n bytes.
  predicate TakesAll(calls: seq<Io>, n: nat) {
    calls != [] && calls[0].Wrote? && calls[0].n >= n
  }

  // Retries until everything is written or a call fails; `written` bytes reached the file either way.
  method WriteAll(data: string, calls: seq<Io>) returns (ok: bool, written: nat)
    ensures written == Delivered(|data|, calls)
    ensures ok <==> written == |data|
  {
    written := 0;
    var c := 0;
    while written < |data|
      invariant written <= |data| && c <= |calls|
      invariant Delivered(|data|, calls) == written + Delivered(|data| - written, calls[c..])
      decreases |calls| - c
    {
      if c == |calls| { return false, written; }
      assert calls[c..][1..] == calls[c + 1..];
      match calls[c] {
        case Wrote(n) =>
          if n == 0 { return false, written; }
          written := written + if n < |data| - written then n else |data| - written;
        case Interrupted =>
        case Failed =>
          return false, written;
      }
      c := c + 1;
    }
    ok := true;
  }

  // The bytes that a list of calls takes when none of them fails: interruptions take none.
  function Taken(calls: seq<Io>): nat {
    if calls == [] then 0
    else Taken(calls[..|calls| - 1]) + match calls[|calls| - 1] { case Wrote(n) => n case _ => 0 }
  }

  ghost predicate NeverFails(calls: seq<Io>) {
    forall i :: 0 <= i < |calls| ==> calls[i].Interrupted? || (calls[i].Wrote? && calls[i].n > 0)
  }

  // As long as no call fails, the bytes delivered are those the calls take, up to the length.
  lemma {:induction false} DeliversAll(len: nat, calls: seq<Io>, more: seq<Io>)
    requires NeverFails(calls)
    ensures Delivered(len, calls + more) == if Taken(calls) >= len then len
                                            else Taken(calls) + Delivered(len - Taken(calls), more)
    decreases |calls|
  {
    if calls == [] {
      assert calls + more == more;
    } else {
      var init, last := calls[..|calls| - 1], calls[|calls| - 1];
      assert calls + more == init + ([last] + more);
      DeliversAll(len, init, [last] + more);
      assert ([last] + more)[1..] == more;
    }
  }

  // And nothing more once one does.
  lemma FailureStops(len: nat, calls: seq<Io>)
    requires calls != [] && (calls[0].Failed? || calls[0] == Wrote(0))
    ensures Delivered(len, calls) == 0
  {
  }
}
