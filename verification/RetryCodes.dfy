/** Which failures a retry policy retries: status-code patterns, how they are parsed, and how an
    attempt's error is turned into a decision. */
module RetryCodes {
  import opened Text

  /** A range of status codes, both ends included. */
  datatype CodeRange = CodeRange(start: int, end: int)

  const VALID_HTTP := CodeRange(100, 599)
  const VALID_GRPC := CodeRange(0, 16)

  predicate MatchCode(r: CodeRange, code: int)
  {
    r.start <= code <= r.end
  }

  // ----- numbers -----

  predicate IsDigit(c: char)
  {
    '0' <= c <= '9'
  }

  function Digit(c: char): (d: nat)
    requires IsDigit(c)
    ensures d < 10
  {
    c as int - '0' as int
  }

  /** The value of a string of digits, however long. */
  function Digits(s: string): (n: nat)
    requires forall c <- s :: IsDigit(c)
  {
    if s == "" then 0 else 10 * Digits(s[..|s| - 1]) + Digit(s[|s| - 1])
  }

  /** `strconv.Atoi` with a 64-bit `int`: an optional sign, then digits, within range. */
  function Atoi(s: string): (n: Option<int>)
  {
    var negative := s != "" && s[0] == '-';
    var body := if s != "" && (s[0] == '-' || s[0] == '+') then s[1..] else s;
    if body == "" || exists c <- body :: !IsDigit(c) then None
    else
      var value: int := if negative then -(Digits(body) as int) else Digits(body);
      if -0x8000_0000_0000_0000 <= value < 0x8000_0000_0000_0000 then Some(value) else None
  }

  /** The conversion `int32(n)`: the low 32 bits, read as a signed number. */
  function Narrow(n: int): (m: int)
    ensures -0x8000_0000 <= m < 0x8000_0000
    ensures -0x8000_0000 <= n < 0x8000_0000 ==> m == n
  {
    (n + 0x8000_0000) % 0x1_0000_0000 - 0x8000_0000
  }

  // ----- parsing patterns -----

  /** `compilePattern`: one code or a range of codes, all within the valid range after narrowing. */
  function CompilePattern(pattern: string, valid: CodeRange): (r: Option<CodeRange>)
    ensures r.Some? ==> valid.start <= r.value.start <= r.value.end <= valid.end
  {
    var ends := Split(pattern, '-');
    if |ends| > 2 then None
    else
      var first := Atoi(ends[0]);
      if first.None? || !MatchCode(valid, Narrow(first.value)) then None
      else
        var second := if |ends| == 2 then Atoi(ends[1]) else first;
        if second.None? || !MatchCode(valid, Narrow(second.value)) then None
        else if Narrow(second.value) < Narrow(first.value) then None
        else Some(CodeRange(Narrow(first.value), Narrow(second.value)))
  }

  /** A parsed list of patterns. Go tells the nil list, which retries every code, from an empty one. */
  datatype Patterns = Everything | Only(ranges: seq<CodeRange>) | Malformed

  /** The patterns of the non-empty pieces, in order; malformed as soon as one is. */
  function CompileAll(pieces: seq<string>, valid: CodeRange): (r: Option<seq<CodeRange>>)
    ensures r.Some? ==> forall range <- r.value :: valid.start <= range.start <= range.end <= valid.end
  {
    if pieces == [] then Some([])
    else
      var front := CompileAll(pieces[..|pieces| - 1], valid);
      var last := pieces[|pieces| - 1];
      if front.None? || last == "" then front
      else
        var range := CompilePattern(last, valid);
        if range.None? then None else Some(front.value + [range.value])
  }

  function Parse(patterns: string, valid: CodeRange): (r: Patterns)
  {
    if patterns == "" then Everything
    else
      var ranges := CompileAll(Split(patterns, ','), valid);
      if ranges.None? then Malformed else Only(ranges.value)
  }

  lemma CompileStep(pieces: seq<string>, valid: CodeRange, i: nat)
    requires i < |pieces| && CompileAll(pieces[..i], valid).Some?
    ensures CompileAll(pieces[..i + 1], valid) ==
            var front, range := CompileAll(pieces[..i], valid), CompilePattern(pieces[i], valid);
            if pieces[i] == "" then front else if range.None? then None else Some(front.value + [range.value])
  {
    assert pieces[..i + 1][..i] == pieces[..i];
  }

  lemma {:induction false} CompilePrefix(pieces: seq<string>, valid: CodeRange, i: nat)
    requires i <= |pieces| && CompileAll(pieces[..i], valid).None?
    ensures CompileAll(pieces, valid).None?
    decreases |pieces| - i
  {
    if i < |pieces| {
      assert pieces[..i + 1][..i] == pieces[..i];
      CompilePrefix(pieces, valid, i + 1);
    } else {
      assert pieces[..i] == pieces;
    }
  }

  /** `parsePatterns`. Every list it accepts holds only non-empty ranges within the valid one. */
  method ParsePatterns(patterns: string, valid: CodeRange) returns (r: Patterns)
    ensures r == Parse(patterns, valid)
    ensures r.Only? ==> forall range <- r.ranges :: valid.start <= range.start <= range.end <= valid.end
  {
    if patterns == "" {
      return Everything;
    }
    var parsed: seq<CodeRange> := [];
    var pieces := Split(patterns, ',');
    var i := 0;
    while i < |pieces|
      invariant 0 <= i <= |pieces|
      invariant CompileAll(pieces[..i], valid) == Some(parsed)
    {
      CompileStep(pieces, valid, i);
      if |pieces[i]| != 0 {
        var range := CompilePattern(pieces[i], valid);
        if range.None? {
          CompilePrefix(pieces, valid, i + 1);
          return Malformed;
        }
        parsed := parsed + [range.value];
      }
      i := i + 1;
    }
    TakeAll(pieces);
    return Only(parsed);
  }

  // ----- printing, and parsing what was printed -----

  function PrintNat(n: nat): (s: string)
    ensures s != "" && forall c <- s :: IsDigit(c)
    ensures Digits(s) == n
  {
    if n < 10 then
      var s := [(n + '0' as int) as char];
      assert s[..0] == "";
      s
    else
      var front, last := PrintNat(n / 10), [(n % 10 + '0' as int) as char];
      var s := front + last;
      assert s[..|s| - 1] == front && s[|s| - 1] == last[0];
      s
  }

  function PrintRange(r: CodeRange): (s: string)
    requires 0 <= r.start && 0 <= r.end
  {
    PrintNat(r.start) + "-" + PrintNat(r.end)
  }

  function PrintRanges(ranges: seq<CodeRange>): (pieces: seq<string>)
    requires forall r <- ranges :: 0 <= r.start && 0 <= r.end
    ensures |pieces| == |ranges|
  {
    if ranges == [] then [] else PrintRanges(ranges[..|ranges| - 1]) + [PrintRange(ranges[|ranges| - 1])]
  }

  lemma AtoiOfPrinted(n: nat)
    requires n < 0x8000_0000_0000_0000
    ensures Atoi(PrintNat(n)) == Some(n)
    ensures '-' !in PrintNat(n) && ',' !in PrintNat(n)
  {
    var s := PrintNat(n);
    assert s[0] in s && IsDigit(s[0]);
    assert !IsDigit('-') && !IsDigit(',');
  }

  /** What a printed number compiles to, for every number that fits into 64 bits: it is narrowed to 32 bits before it
      is checked. So it is read as written exactly when it is a valid code, and accepted exactly when its low 32 bits
      are one. */
  lemma CompileNumber(n: nat, valid: CodeRange)
    requires 0 <= valid.start && valid.end < 0x8000_0000 && n < 0x8000_0000_0000_0000
    ensures CompilePattern(PrintNat(n), valid).Some? <==> MatchCode(valid, Narrow(n))
    ensures CompilePattern(PrintNat(n), valid).Some? ==>
              CompilePattern(PrintNat(n), valid) == Some(CodeRange(Narrow(n), Narrow(n)))
    ensures CompilePattern(PrintNat(n), valid) == Some(CodeRange(n, n)) <==> MatchCode(valid, n)
  {
    AtoiOfPrinted(n);
    SplitNone(PrintNat(n), '-');
  }

  /** The same for a printed range: it is accepted exactly when its narrowed ends are valid and in order, and read as
      written exactly when its ends are. */
  lemma CompileNumbers(r: CodeRange, valid: CodeRange)
    requires 0 <= valid.start && valid.end < 0x8000_0000
    requires 0 <= r.start < 0x8000_0000_0000_0000 && 0 <= r.end < 0x8000_0000_0000_0000
    ensures CompilePattern(PrintRange(r), valid) ==
            if valid.start <= Narrow(r.start) <= Narrow(r.end) <= valid.end
            then Some(CodeRange(Narrow(r.start), Narrow(r.end))) else None
    ensures CompilePattern(PrintRange(r), valid) == Some(r) <==> valid.start <= r.start <= r.end <= valid.end
    ensures PrintRange(r) != "" && ',' !in PrintRange(r)
  {
    AtoiOfPrinted(r.start);
    AtoiOfPrinted(r.end);
    SplitRange(r);
  }

  lemma SplitRange(r: CodeRange)
    requires 0 <= r.start < 0x8000_0000_0000_0000 && 0 <= r.end < 0x8000_0000_0000_0000
    ensures Split(PrintRange(r), '-') == [PrintNat(r.start), PrintNat(r.end)]
  {
    AtoiOfPrinted(r.start);
    AtoiOfPrinted(r.end);
    var ends := [PrintNat(r.start), PrintNat(r.end)];
    SplitJoin(ends, '-');
    assert ends[1..] == [PrintNat(r.end)];
    assert Join(ends, "-") == PrintRange(r);
  }

  lemma {:induction false} CompileAllPrinted(ranges: seq<CodeRange>, valid: CodeRange)
    requires 0 <= valid.start && valid.end < 0x8000_0000
    requires forall r <- ranges :: valid.start <= r.start <= r.end <= valid.end
    ensures CompileAll(PrintRanges(ranges), valid) == Some(ranges)
    ensures forall p <- PrintRanges(ranges) :: ',' !in p && p != ""
  {
    if ranges != [] {
      var front, last := ranges[..|ranges| - 1], ranges[|ranges| - 1];
      assert ranges == front + [last];
      CompileAllPrinted(front, valid);
      CompileNumbers(last, valid);
      SnocFront(PrintRanges(front), PrintRange(last));
    }
  }

  /** Round trip: a non-empty list of ranges within bounds, printed and parsed, is the list. */
  lemma ParsePrinted(ranges: seq<CodeRange>, valid: CodeRange)
    requires 0 <= valid.start && valid.end < 0x8000_0000 && ranges != []
    requires forall r <- ranges :: valid.start <= r.start <= r.end <= valid.end
    ensures Parse(Join(PrintRanges(ranges), ","), valid) == Only(ranges)
  {
    var pieces := PrintRanges(ranges);
    CompileAllPrinted(ranges, valid);
    SplitJoin(pieces, ',');
    assert pieces[0] in pieces;
    assert |Join(pieces, ",")| >= |pieces[0]| > 0;
  }

  /** So every code has other spellings: the numbers that agree with it in their low 32 bits. */
  lemma NarrowingAccepts(code: int, k: nat, valid: CodeRange)
    requires 0 <= valid.start <= code <= valid.end < 0x8000_0000
    requires code + 0x1_0000_0000 * k < 0x8000_0000_0000_0000
    ensures CompilePattern(PrintNat(code + 0x1_0000_0000 * k), valid) == Some(CodeRange(code, code))
  {
    NarrowAlias(code, k);
    CompileNumber(code + 0x1_0000_0000 * k, valid);
  }

  lemma NarrowAlias(code: int, k: nat)
    requires 0 <= code < 0x8000_0000
    ensures Narrow(code + 0x1_0000_0000 * k) == code
  {
    assert (code + 0x1_0000_0000 * k) + 0x8000_0000 == (code + 0x8000_0000) + 0x1_0000_0000 * k;
  }

  // ----- what else is read, and what is refused -----

  predicate Numeral(s: string)
  {
    s != "" && forall c <- s :: IsDigit(c)
  }

  function Within64(n: int): (r: Option<int>)
  {
    if -0x8000_0000_0000_0000 <= n <= 0x7FFF_FFFF_FFFF_FFFF then Some(n) else None
  }

  /** Numbers may have a sign and leading zeros, and must fit into 64 bits. */
  lemma AtoiReads(s: string)
    requires Numeral(s)
    ensures Atoi(s) == Within64(Digits(s))
    ensures Atoi("+" + s) == Within64(Digits(s))
    ensures Atoi("-" + s) == Within64(-(Digits(s) as int))
  {
    assert IsDigit(s[0]);
    Unsigned('+', s);
    Unsigned('-', s);
  }

  lemma Unsigned(sign: char, s: string)
    ensures ([sign] + s)[0] == sign && ([sign] + s)[1..] == s
  {
  }

  /** Nothing else is a number. */
  lemma AtoiRefuses(s: string)
    requires Atoi(s).Some?
    ensures Numeral(s) || (s != "" && (s[0] == '+' || s[0] == '-') && Numeral(s[1..]))
  {
  }

  lemma {:induction false} LeadingZeros(s: string)
    requires forall c <- s :: IsDigit(c)
    ensures (forall c <- "0" + s :: IsDigit(c)) && Digits("0" + s) == Digits(s)
  {
    assert forall c <- "0" + s :: c == '0' || c in s;
    if s == "" {
      assert "0" + s == "0" && "0"[..0] == "";
    } else {
      LeadingZeros(s[..|s| - 1]);
      assert ("0" + s)[..|s|] == "0" + s[..|s| - 1];
    }
  }

  /** Empty pieces are skipped wherever they stand. */
  lemma {:induction false} EmptyPiecesSkipped(a: seq<string>, b: seq<string>, valid: CodeRange)
    ensures CompileAll(a + [""] + b, valid) == CompileAll(a + b, valid)
    decreases |b|
  {
    if b == [] {
      assert a + [""] + b == a + [""] && a + b == a;
      SnocFront(a, "");
    } else {
      var front, last := b[..|b| - 1], b[|b| - 1];
      EmptyPiecesSkipped(a, front, valid);
      SameAfterOneMore(a + [""] + front, a + front, last, valid);
      assert a + [""] + b == (a + [""] + front) + [last] && a + b == (a + front) + [last];
    }
  }

  lemma SameAfterOneMore(a: seq<string>, b: seq<string>, last: string, valid: CodeRange)
    requires CompileAll(a, valid) == CompileAll(b, valid)
    ensures CompileAll(a + [last], valid) == CompileAll(b + [last], valid)
  {
    SnocFront(a, last);
    SnocFront(b, last);
  }

  /** No patterns at all retry everything; patterns without a code retry nothing. */
  lemma NoPatterns(valid: CodeRange)
    ensures Parse("", valid) == Everything && Parse(",", valid) == Only([])
  {
    SplitFirst("", "", ',');
    assert "" + [','] + "" == ",";
    assert Split(",", ',') == ["", ""];
    assert CompileAll([""], valid) == Some([]) by {
      assert [""][..0] == [];
    }
    assert ["", ""][..1] == [""];
  }

  // ----- deciding about an error -----

  datatype Scenario = HttpInvoke | GrpcInvoke

  datatype CodeError = CodeError(code: int, scenario: Scenario)

  /** `NewCodeError`: the protocol is guessed from the code. */
  function NewCodeError(code: int): (e: CodeError)
  {
    CodeError(code, if MatchCode(VALID_HTTP, code) then HttpInvoke else GrpcInvoke)
  }

  datatype Conditions = Conditions(http: Option<seq<CodeRange>>, grpc: Option<seq<CodeRange>>)

  ghost predicate MustRetry(code: int, ranges: Option<seq<CodeRange>>)
  {
    ranges.None? || exists r <- ranges.value :: MatchCode(r, code)
  }

  /** `mustRetryStatusCode`. */
  method MustRetryStatusCode(code: int, ranges: Option<seq<CodeRange>>) returns (retry: bool)
    ensures retry == MustRetry(code, ranges)
  {
    if ranges.None? {
      return true;
    }
    var i := 0;
    while i < |ranges.value|
      invariant 0 <= i <= |ranges.value|
      invariant forall k :: 0 <= k < i ==> !MatchCode(ranges.value[k], code)
    {
      if MatchCode(ranges.value[i], code) {
        return true;
      }
      i := i + 1;
    }
    return false;
  }

  /** `statusCodeNeedRetry`: what the retry loop asks. */
  ghost predicate StatusCodeNeedRetry(c: Conditions, code: int)
  {
    if MatchCode(VALID_GRPC, code) then MustRetry(code, c.grpc)
    else MatchCode(VALID_HTTP, code) && MustRetry(code, c.http)
  }

  /** `ErrorNeedRetry`: what `RetryExcluded` asks. */
  ghost predicate ErrorNeedRetry(c: Conditions, e: CodeError)
  {
    match e.scenario
    case GrpcInvoke => MustRetry(e.code, c.grpc)
    case HttpInvoke => MustRetry(e.code, c.http)
  }

  /** The ranges of parsed conditions stay within the valid ones. */
  ghost predicate WithinBounds(c: Conditions)
  {
    && (c.http.Some? ==> forall r <- c.http.value :: VALID_HTTP.start <= r.start <= r.end <= VALID_HTTP.end)
    && (c.grpc.Some? ==> forall r <- c.grpc.value :: VALID_GRPC.start <= r.start <= r.end <= VALID_GRPC.end)
  }

  /** The retry loop and `RetryExcluded` judge a code alike exactly when it is a gRPC or an HTTP code, or
      gRPC patterns were given: any other code is never retried by the loop, yet counts as retriable
      for `RetryExcluded` when there are no gRPC patterns. */
  lemma LoopAgreesWithExcluded(c: Conditions, code: int)
    requires WithinBounds(c)
    ensures StatusCodeNeedRetry(c, code) == ErrorNeedRetry(c, NewCodeError(code)) <==>
            MatchCode(VALID_GRPC, code) || MatchCode(VALID_HTTP, code) || c.grpc.Some?
  {
  }

  /** A code that is neither, without gRPC patterns. */
  lemma CodeOutsideBoth(http: Option<seq<CodeRange>>)
    ensures var c := Conditions(http, None);
            !StatusCodeNeedRetry(c, 17) && ErrorNeedRetry(c, NewCodeError(17))
  {
  }

  // ----- timeouts -----

  datatype ContextError = Canceled | DeadlineExceeded

  /** An error as the runner can tell them apart; `Permanent` is what stops the backoff. */
  datatype Error = Context(cause: ContextError) | Coded(e: CodeError) | Plain | Permanent(inner: Error)

  /** `errors.As` for a `CodeError`. */
  function AsCode(err: Error): (e: Option<CodeError>)
  {
    match err
    case Coded(e) => Some(e)
    case Permanent(inner) => AsCode(inner)
    case _ => None
  }

  const GRPC_CANCELED := 1
  const GRPC_DEADLINE_EXCEEDED := 4

  /** Milliseconds by which a deadline may be enforced before the local clock reads past it. */
  const DEADLINE_CLOCK_TOLERANCE := 16

  /** `timeoutError`: the timeout to report for an attempt that returned `err`, if it timed out. The clock
      is read twice, first as `now` and then as `later`. */
  function TimeoutError(ctxErr: Option<ContextError>, deadline: Option<int>, now: int, later: int, err: Option<Error>):
    (timeout: Option<ContextError>)
    requires now <= later
  {
    if err.None? then None
    else if ctxErr.Some? then ctxErr
    else if deadline.None? then None
    else if now >= deadline.value then Some(DeadlineExceeded)
    else if deadline.value - later <= DEADLINE_CLOCK_TOLERANCE && AsCode(err.value).Some? &&
            AsCode(err.value).value.code in {GRPC_DEADLINE_EXCEEDED, GRPC_CANCELED} then Some(DeadlineExceeded)
    else None
  }

  /** What the retry closure makes of an error: a status code that is not to be retried becomes permanent. */
  ghost function RuleOn(c: Conditions, err: Error): (e: Error)
  {
    var coded := AsCode(err);
    if coded.Some? && !StatusCodeNeedRetry(c, coded.value.code) then Permanent(err) else err
  }
}
