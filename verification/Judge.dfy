// The judge: comparing outputs without whitespace, and the verdict of a submission.
module Judge {
  import opened Bytes
  import JsonNumber

  const SUCCESS: int := 0
  const FAILURE: int := 1
  const JUDGE_ERROR: int := 2

  // ----- compareFiles -----

  // isspace in the C locale: space, \t, \n, \v, \f, \r.
  predicate IsSpace(b: byte) {
    b == 32 || 9 <= b <= 13
  }

  function Strip(s: bytes): bytes {
    if s == [] then [] else (if IsSpace(s[0]) then [] else [s[0]]) + Strip(s[1..])
  }

  lemma {:induction false} StripConcat(a: bytes, b: bytes)
    ensures Strip(a + b) == Strip(a) + Strip(b)
  {
    if a == [] {
      assert a + b == b;
    } else {
      assert (a + b)[1..] == a[1..] + b;
      StripConcat(a[1..], b);
    }
  }

  lemma SpaceTable(b: byte)
    ensures IsSpace(b) <==> b in Ascii(" \t\n\r") || b == 11 || b == 12
  {
    assert Ascii(" \t\n\r") == [32, 9, 10, 13];
  }

  // Other bytes all stay. (With StripConcat and StripSpaces this leaves one function.)
  lemma {:induction false} StripOthers(w: bytes)
    requires forall i :: 0 <= i < |w| ==> !IsSpace(w[i])
    ensures Strip(w) == w
  {
    if w != [] {
      StripOthers(w[1..]);
    }
  }

  // What compareFiles answers; None is a file that cannot be opened.
  function Comparison(file1: Option<bytes>, file2: Option<bytes>): int {
    if file1.None? || file2.None? then JUDGE_ERROR
    else if Strip(file1.value) == Strip(file2.value) then SUCCESS
    else FAILURE
  }

  // The do-while loop: read bytes until one is not whitespace or the file ends.
  method ReadSkippingSpaces(file: bytes, start: nat) returns (bytesRead: nat, c: byte, next: nat)
    requires start <= |file|
    ensures start <= next <= |file|
    ensures bytesRead == 0 ==> Strip(file[start..]) == [] && next == |file|
    ensures bytesRead != 0 ==> start < next && Strip(file[start..]) == [c] + Strip(file[next..])
  {
    next, c := start, 0;
    while true
      invariant start <= next <= |file| && Strip(file[start..]) == Strip(file[next..])
      decreases |file| - next
    {
      if next == |file| {
        bytesRead := 0;
        break;
      }
      bytesRead, c, next := 1, file[next], next + 1;
      assert file[next - 1..][1..] == file[next..];
      if !IsSpace(c) {
        break;
      }
    }
  }

  method CompareFiles(file1: Option<bytes>, file2: Option<bytes>) returns (result: int)
    ensures result == Comparison(file1, file2)
    ensures result == SUCCESS <==> file1.Some? && file2.Some? && Strip(file1.value) == Strip(file2.value)
    ensures result == FAILURE <==> file1.Some? && file2.Some? && Strip(file1.value) != Strip(file2.value)
    ensures result == JUDGE_ERROR <==> file1.None? || file2.None?
    ensures SUCCESS == 0 && FAILURE == 1 && JUDGE_ERROR == 2
  {
    if file1.None? || file2.None? {
      return JUDGE_ERROR;
    }
    var f1, f2 := file1.value, file2.value;
    var at1, at2 := 0, 0;
    assert f1[0..] == f1 && f2[0..] == f2;
    while true
      invariant at1 <= |f1| && at2 <= |f2|
      invariant Strip(f1) == Strip(f2) <==> Strip(f1[at1..]) == Strip(f2[at2..])
      decreases |f1| - at1
    {
      hide Strip;
      var bytesRead1, c1, next1 := ReadSkippingSpaces(f1, at1);
      var bytesRead2, c2, next2 := ReadSkippingSpaces(f2, at2);
      if bytesRead1 == 0 && bytesRead2 == 0 {
        break;
      }
      if bytesRead1 == 0 || bytesRead2 == 0 {
        return FAILURE;
      }
      SameHead(c1, Strip(f1[next1..]), c2, Strip(f2[next2..]));
      if c1 != c2 {
        return FAILURE;
      }
      at1, at2 := next1, next2;
    }
    result := SUCCESS;
  }

  lemma SameHead(c1: byte, s1: bytes, c2: byte, s2: bytes)
    ensures [c1] + s1 == [c2] + s2 <==> c1 == c2 && s1 == s2
  {
    assert ([c1] + s1)[0] == c1 && ([c1] + s1)[1..] == s1;
    assert ([c2] + s2)[0] == c2 && ([c2] + s2)[1..] == s2;
  }

  // Comparing equal is an equivalence of files that exist.
  lemma ComparisonIsEquivalence(a: bytes, b: bytes, c: bytes)
    ensures Comparison(Some(a), Some(a)) == SUCCESS
    ensures Comparison(Some(a), Some(b)) == Comparison(Some(b), Some(a))
    ensures Comparison(Some(a), Some(b)) == SUCCESS && Comparison(Some(b), Some(c)) == SUCCESS ==>
        Comparison(Some(a), Some(c)) == SUCCESS
  {
  }

  lemma {:induction false} StripSpaces(w: bytes)
    requires forall i :: 0 <= i < |w| ==> IsSpace(w[i])
    ensures Strip(w) == []
  {
    if w != [] {
      StripSpaces(w[1..]);
    }
  }

  // Whitespace may be added anywhere, also in the middle of a number; any other byte makes a difference.
  lemma OnlyWhitespaceIsIgnored(a: bytes, w: bytes, b: bytes)
    ensures Comparison(Some(a + w + b), Some(a + b)) == SUCCESS <==> forall i :: 0 <= i < |w| ==> IsSpace(w[i])
  {
    hide Strip;
    StripConcat(a + w, b);
    StripConcat(a, w);
    StripConcat(a, b);
    if forall i :: 0 <= i < |w| ==> IsSpace(w[i]) {
      StripSpaces(w);
      assert Strip(a) + [] + Strip(b) == Strip(a) + Strip(b);
    } else {
      var i :| 0 <= i < |w| && !IsSpace(w[i]);
      NotAllSpaces(w, i);
      assert |Strip(a + w + b)| == |Strip(a)| + |Strip(w)| + |Strip(b)|;
    }
  }

  lemma {:induction false} NotAllSpaces(w: bytes, i: nat)
    requires i < |w| && !IsSpace(w[i])
    ensures Strip(w) != []
  {
    if i > 0 {
      NotAllSpaces(w[1..], i - 1);
    }
  }

  // ----- submitProblem -----

  datatype Ending = Exited(code: nat) | Signaled(signal: nat)

  // Everything submitProblem learns from the operating system and the problem table.
  datatype Submission = Submission(
    compilePipe: bool,
    compiled: Ending,
    compilerErrors: string,
    problemExists: bool,
    runPipe: bool,
    ran: Ending,
    runErrors: string,
    output: Option<bytes>,
    expected: Option<bytes>)

  const PIPE_BUFFER: nat := 1000

  // readPipe: the prefix and what of the output fits behind it.
  function PipeText(prefix: string, output: string): (text: string)
    requires |prefix| < PIPE_BUFFER
    ensures prefix <= text <= prefix + output && |text| < PIPE_BUFFER
    ensures text == prefix + output || |text| == 999
  {
    var n := if |output| <= PIPE_BUFFER - 1 - |prefix| then |output| else PIPE_BUFFER - 1 - |prefix|;
    assert prefix + output == prefix + output[..n] + output[n..];
    prefix + output[..n]
  }

  function Decimal(n: nat): string {
    if n < 10 then [n as char + '0'] else Decimal(n / 10) + [(n % 10) as char + '0']
  }

  // The decimal digits of a number, most significant first.
  lemma {:induction false} DecimalDigits(n: nat)
    ensures Ascii(Decimal(n)) == JsonNumber.Digits(n)
  {
    if n >= 10 {
      DecimalDigits(n / 10);
    }
  }

  // What a run killed by a signal is told (signal numbers of Linux on x86-64).
  function SignalText(signal: nat): (text: string)
    ensures |text| > |"Accepted"|
  {
    match signal
    case 11 => "Runtime Error: Segmentation Fault (Invalid memory access)"
    case 8 => "Runtime Error: Floating Point Exception (Division by zero)"
    case 31 => "Runtime Error: Bad System Call (Sandbox Violation)"
    case 24 => "Time Limit Exceeded (CPU Limit)"
    case 25 => "Output Limit Exceeded (Printed too much data)"
    case 6 => "Runtime Error: Aborted (Assertion failed)"
    case 4 => "Runtime Error: Illegal Instruction"
    case 7 => "Runtime Error: Bus Error (Memory alignment issue)"
    case 9 => "Runtime Error: Process Killed (Out of Memory or Timeout)"
    case _ => "Runtime Error: Killed by OS fatal signal " + Decimal(signal)
  }

  // The verdicts of SIGILL (4), SIGABRT (6), SIGBUS (7), SIGFPE (8) and SIGSEGV (11), which a faulty program gets.
  lemma FaultVerdicts()
    ensures SignalText(4) == "Runtime Error: Illegal Instruction"
    ensures SignalText(6) == "Runtime Error: Aborted (Assertion failed)"
    ensures SignalText(7) == "Runtime Error: Bus Error (Memory alignment issue)"
    ensures SignalText(8) == "Runtime Error: Floating Point Exception (Division by zero)"
    ensures SignalText(11) == "Runtime Error: Segmentation Fault (Invalid memory access)"
  {
  }

  // And those of SIGKILL (9), SIGXCPU (24), SIGXFSZ (25) and SIGSYS (31), with which the sandbox stops one; any other
  // signal is named by its number.
  lemma LimitVerdicts(signal: nat)
    ensures SignalText(9) == "Runtime Error: Process Killed (Out of Memory or Timeout)"
    ensures SignalText(24) == "Time Limit Exceeded (CPU Limit)"
    ensures SignalText(25) == "Output Limit Exceeded (Printed too much data)"
    ensures SignalText(31) == "Runtime Error: Bad System Call (Sandbox Violation)"
    ensures signal !in {4, 6, 7, 8, 9, 11, 24, 25, 31} ==>
              SignalText(signal) == "Runtime Error: Killed by OS fatal signal " + Decimal(signal)
  {
  }

  // Both pipes could be created as far as they were needed, so the buffer was written.
  predicate Judged(s: Submission) {
    s.compilePipe && (s.compiled == Exited(0) && s.problemExists ==> s.runPipe)
  }

  // The submission really solves the problem.
  predicate Solves(s: Submission) {
    && s.compiled == Exited(0) && s.problemExists && s.ran == Exited(0)
    && s.output.Some? && s.expected.Some? && Strip(s.output.value) == Strip(s.expected.value)
  }

  // The result and the caller's buffer afterwards. "Accepted" appears exactly for a judged submission that solves the
  // problem, or when a pipe failed and the caller's buffer already said so; the result is never negative.
  method SubmitProblem(s: Submission, buffer: string) returns (result: int, buffer': string)
    ensures buffer' == "Accepted" <==> if Judged(s) then Solves(s) else buffer == "Accepted"
    ensures !Judged(s) ==> buffer' == buffer
    ensures result == SUCCESS || result == FAILURE
    ensures result == SUCCESS <==> Judged(s) && s.compiled == Exited(0) && s.problemExists && s.ran == Exited(0)
    // the verdict of a run that ended well
    ensures result == SUCCESS ==>
              && (buffer' == "Accepted"
                  <==> s.output.Some? && s.expected.Some? && Strip(s.output.value) == Strip(s.expected.value))
              && (buffer' == "Wrong Answer"
                  <==> s.output.Some? && s.expected.Some? && Strip(s.output.value) != Strip(s.expected.value))
              && (buffer' == "Error in judging" <==> s.output.None? || s.expected.None?)
    // and of one that did not, or could not begin
    ensures s.compilePipe && s.compiled != Exited(0) ==>
              buffer' == if s.compilerErrors == "" then "Compilation error: Unknown problem"
                         else PipeText("Compilation error: ", s.compilerErrors)
    ensures s.compilePipe && s.compiled == Exited(0) && !s.problemExists ==> buffer' == "Problem not found"
    ensures Judged(s) && s.compiled == Exited(0) && s.problemExists && s.ran != Exited(0) ==>
              buffer' == match s.ran
                         case Signaled(signal) => SignalText(signal)
                         case Exited(code) => ExitText(code, s.runErrors)
  {
    if !s.compilePipe {
      return FAILURE, buffer;
    }
    if s.compiled != Exited(0) {
      if s.compilerErrors != "" {
        NotAccepted("Compilation error: ", PipeText("Compilation error: ", s.compilerErrors));
        return FAILURE, PipeText("Compilation error: ", s.compilerErrors);
      }
      return FAILURE, "Compilation error: Unknown problem";
    }
    if !s.problemExists {
      return FAILURE, "Problem not found";
    }
    if !s.runPipe {
      return FAILURE, buffer;
    }
    if s.ran != Exited(0) {
      buffer' := RunFailure(s);
      return FAILURE, buffer';
    }
    var judgeResult := CompareFiles(s.output, s.expected);
    if judgeResult == SUCCESS {
      buffer' := "Accepted";
    } else if judgeResult == FAILURE {
      buffer' := "Wrong Answer";
    } else {
      buffer' := "Error in judging";
    }
    result := SUCCESS;
  }

  method RunFailure(s: Submission) returns (text: string)
    requires s.ran != Exited(0)
    ensures text != "Accepted"
    ensures text == match s.ran
                    case Signaled(signal) => SignalText(signal)
                    case Exited(code) => ExitText(code, s.runErrors)
  {
    match s.ran {
      case Signaled(signal) =>
        text := SignalText(signal);
      case Exited(code) =>
        var errors := PipeText("Runtime error: ", s.runErrors);
        if |errors| - |"Runtime error: "| > 15 {
          text := errors;
        } else {
          text := "Runtime Error: Exited with non-zero code " + Decimal(code);
        }
        assert text[0] == 'R';
    }
  }

  // What a run that exits with an error is told: what it wrote to its error output, if that is longer than 15 bytes.
  function ExitText(code: nat, errors: string): (text: string)
    ensures |errors| > 15 ==> "Runtime error: " <= text <= "Runtime error: " + errors
    ensures 15 < |errors| <= 984 ==> text == "Runtime error: " + errors
    ensures |errors| <= 15 ==> text == "Runtime Error: Exited with non-zero code " + Decimal(code)
  {
    if |errors| > 15 then PipeText("Runtime error: ", errors)
    else "Runtime Error: Exited with non-zero code " + Decimal(code)
  }

  lemma NotAccepted(prefix: string, text: string)
    requires prefix <= text && prefix != "" && prefix[0] != 'A'
    ensures text != "Accepted"
  {
    assert text[0] == prefix[0];
  }

  // ----- A client's submissions share one result buffer -----

  // What the buffer says about acceptance after a series of submissions; handleClient answers each with the buffer,
  // because it only looks for a negative result.
  function SaysAccepted(before: bool, submissions: seq<Submission>): bool {
    if submissions == [] then before
    else
      var last := submissions[|submissions| - 1];
      if Judged(last) then Solves(last) else SaysAccepted(before, submissions[..|submissions| - 1])
  }

  method SubmitAll(submissions: seq<Submission>, buffer: string) returns (replies: seq<string>)
    ensures |replies| == |submissions|
    ensures forall i :: 0 <= i < |replies| ==>
        (replies[i] == "Accepted" <==> SaysAccepted(buffer == "Accepted", submissions[..i + 1]))
  {
    var resultBuffer := buffer;
    replies := [];
    for i := 0 to |submissions|
      invariant |replies| == i
      invariant resultBuffer == "Accepted" <==> SaysAccepted(buffer == "Accepted", submissions[..i])
      invariant forall j :: 0 <= j < i ==>
          (replies[j] == "Accepted" <==> SaysAccepted(buffer == "Accepted", submissions[..j + 1]))
    {
      var _, text := SubmitProblem(submissions[i], resultBuffer);
      resultBuffer := text;
      assert submissions[..i + 1][..i] == submissions[..i];
      replies := replies + [resultBuffer];
    }
  }

  // The reply to submission i is "Accepted" exactly when the last judged submission up to it solves its problem (or
  // none was judged and the buffer started out so): a pipe failure repeats the previous verdict.
  lemma {:induction false} LastJudgedDecides(before: bool, submissions: seq<Submission>, k: nat)
    requires k < |submissions| && Judged(submissions[k])
    requires forall i :: k < i < |submissions| ==> !Judged(submissions[i])
    ensures SaysAccepted(before, submissions) == Solves(submissions[k])
    decreases |submissions|
  {
    var n := |submissions| - 1;
    if k < n {
      LastJudgedDecides(before, submissions[..n], k);
    }
  }

  // The reply to submission i says "Accepted" only if it was judged and solves its problem.
  predicate Deserved(before: bool, submissions: seq<Submission>, i: nat)
    requires i < |submissions|
  {
    SaysAccepted(before, submissions[..i + 1]) ==> Judged(submissions[i]) && Solves(submissions[i])
  }

  // Every submission that solves its problem, and a buffer that says "Accepted" from the start, is followed by a judged
  // submission or by none.
  predicate JudgedAfterSuccess(before: bool, submissions: seq<Submission>) {
    && (before && submissions != [] ==> Judged(submissions[0]))
    && forall k :: 0 <= k < |submissions| - 1 && Judged(submissions[k]) && Solves(submissions[k]) ==>
         Judged(submissions[k + 1])
  }

  lemma OneMoreReply(before: bool, submissions: seq<Submission>, i: nat)
    requires i < |submissions|
    ensures SaysAccepted(before, submissions[..i + 1])
            == if Judged(submissions[i]) then Solves(submissions[i]) else SaysAccepted(before, submissions[..i])
  {
    assert submissions[..i + 1][..i] == submissions[..i];
  }

  // Then the buffer only ever says so because of the submission just before.
  lemma {:induction false} JustEarned(before: bool, submissions: seq<Submission>, i: nat)
    requires JudgedAfterSuccess(before, submissions) && i <= |submissions| && SaysAccepted(before, submissions[..i])
    ensures if i == 0 then before else Judged(submissions[i - 1]) && Solves(submissions[i - 1])
  {
    if i > 0 {
      OneMoreReply(before, submissions, i - 1);
      if !Judged(submissions[i - 1]) {
        JustEarned(before, submissions, i - 1);
      }
    }
  }

  // Every accepted reply is deserved if and only if no submission goes unjudged right after a success.
  lemma VerdictsAreHonest(before: bool, submissions: seq<Submission>)
    ensures (forall i :: 0 <= i < |submissions| ==> Deserved(before, submissions, i))
            <==> JudgedAfterSuccess(before, submissions)
  {
    hide Judged, Solves;
    if JudgedAfterSuccess(before, submissions) {
      forall i | 0 <= i < |submissions| ensures Deserved(before, submissions, i) {
        if SaysAccepted(before, submissions[..i + 1]) {
          JustEarned(before, submissions, i + 1);
        }
      }
    } else if before && submissions != [] && !Judged(submissions[0]) {
      OneMoreReply(before, submissions, 0);
      assert !Deserved(before, submissions, 0);
    } else {
      var k :| 0 <= k < |submissions| - 1 && Judged(submissions[k]) && Solves(submissions[k])
          && !Judged(submissions[k + 1]);
      OneMoreReply(before, submissions, k);
      OneMoreReply(before, submissions, k + 1);
      assert !Deserved(before, submissions, k + 1);
    }
  }
}
