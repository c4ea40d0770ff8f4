/**
 * Clamping job flags in a MAKEFLAGS value: every `-j` and `--jobs` option gets a
 * number no larger than the limit, and everything else is copied.
 */
module MakeFlags {
  import opened Text

  // What strconv.ParseInt accepts with 64 bits, for a run of digits.
  const INT64_LIMIT: nat := 0x8000_0000_0000_0000

  datatype Flag = NoFlag | ShortFlag | LongFlag

  // The option recognised at the start of s.
  function FlagAt(s: string): Flag {
    if |s| >= 2 && s[0] == '-' && s[1] == 'j' && (|s| == 2 || s[2] == '=' || s[2] == ' ' || IsDigit(s[2])) then ShortFlag
    else if HasLong(s) && (|s| == 6 || s[6] == '=' || s[6] == ' ') then LongFlag
    else NoFlag
  }

  predicate HasLong(s: string) {
    |s| >= 6 && s[0] == '-' && s[1] == '-' && HasJobs(s[2..])
  }

  predicate HasJobs(s: string) {
    |s| >= 4 && s[0] == 'j' && s[1] == 'o' && s[2] == 'b' && s[3] == 's'
  }

  // What is left of s behind the option and its separator.
  function AfterFlag(s: string): (r: string)
    requires FlagAt(s) != NoFlag
    ensures |r| < |s|
  {
    if FlagAt(s) == LongFlag then (if |s| > 6 then s[7..] else "")
    else
      var t := if |s| > 2 && s[2] == '=' then s[3..] else s[2..];
      if t != "" && t[0] == ' ' then t[1..] else t
  }

  // The length of the leading run of digits.
  function DigitRun(s: string): (n: nat)
    ensures n <= |s| && (n < |s| ==> !IsDigit(s[n]))
    ensures forall i :: 0 <= i < n ==> IsDigit(s[i])
  {
    if s == "" || !IsDigit(s[0]) then 0 else 1 + DigitRun(s[1..])
  }

  predicate Digits(s: string) {
    s != "" && forall i :: 0 <= i < |s| ==> IsDigit(s[i])
  }

  // A number that is zero or too large becomes the limit; one that does not fit 64
  // bits is not parsed and stays.
  function ClampNumber(digits: string, limit: nat): (r: string)
    requires Digits(digits)
    ensures Digits(r)
  {
    var n := DecimalValue(digits);
    if n < INT64_LIMIT && (n == 0 || n > limit) then Decimal(limit) else digits
  }

  function Spelling(flag: Flag): string
    requires flag != NoFlag
  {
    if flag == ShortFlag then "-j" else "--jobs="
  }

  // The number written for the option at the start of s.
  function NumberFor(s: string, limit: nat): (r: string)
    requires FlagAt(s) != NoFlag
    ensures Digits(r)
  {
    var t := AfterFlag(s);
    var n := DigitRun(t);
    if n == 0 then Decimal(limit) else ClampNumber(t[..n], limit)
  }

  function Remaining(s: string): (r: string)
    requires FlagAt(s) != NoFlag
    ensures |r| < |s| && (r != "" ==> !IsDigit(r[0]))
  {
    var t := AfterFlag(s);
    t[DigitRun(t)..]
  }

  function Clamp(s: string, limit: nat): string
    decreases |s|
  {
    if s == "" then ""
    else if FlagAt(s) == NoFlag then [s[0]] + Clamp(s[1..], limit)
    else Spelling(FlagAt(s)) + NumberFor(s, limit) + Clamp(Remaining(s), limit)
  }

  // ---- The scanner ----

  method ParseAndClampNumber(s: string, from: nat, limit: nat) returns (number: string, to: nat)
    requires from < |s| && IsDigit(s[from])
    ensures from < to <= |s| && to - from == DigitRun(s[from..])
    ensures number == ClampNumber(s[from..to], limit)
  {
    to := from;
    while to < |s| && IsDigit(s[to])
      invariant from <= to <= |s|
      invariant to - from + DigitRun(s[to..]) == DigitRun(s[from..])
    {
      assert s[to..][1..] == s[to + 1..];
      to := to + 1;
    }
    var digits := s[from..to];
    assert DigitRun(s[to..]) == 0;
    assert forall i :: 0 <= i < |digits| ==> digits[i] == s[from..][i];
    var n := DecimalValue(digits);
    if n < INT64_LIMIT && (n == 0 || n > limit) {
      number := Decimal(limit);
    } else {
      number := digits;
    }
  }

  // Skip the option and its separator: `=`, a space, or both for the short form.
  method SkipFlag(s: string, from: nat) returns (to: nat)
    requires from < |s| && FlagAt(s[from..]) != NoFlag
    ensures from < to <= |s| && s[to..] == AfterFlag(s[from..])
  {
    if s[from + 1] == 'j' {
      to := from + 2;
      if to < |s| && s[to] == '=' {
        to := to + 1;
      }
      if to < |s| && s[to] == ' ' {
        to := to + 1;
      }
    } else {
      to := from + 6;
      if to < |s| && (s[to] == '=' || s[to] == ' ') {
        to := to + 1;
      }
    }
  }

  method RewriteFlag(s: string, from: nat, limit: nat) returns (text: string, to: nat)
    requires from < |s| && FlagAt(s[from..]) != NoFlag
    ensures from < to <= |s| && s[to..] == Remaining(s[from..])
    ensures text == Spelling(FlagAt(s[from..])) + NumberFor(s[from..], limit)
  {
    var at := SkipFlag(s, from);
    var number, after := NumberOrLimit(s, at, limit);
    SliceOfSlice(s, at, DigitRun(s[at..]));
    SpellingBySecond(s[from..]);
    SliceOfSlice(s, from, 1);
    text, to := (if s[from + 1] == 'j' then "-j" else "--jobs=") + number, after;
  }

  lemma SliceOfSlice(s: string, from: nat, n: nat)
    requires from + n <= |s|
    ensures s[from..][n..] == s[from + n..]
    ensures n < |s| - from ==> s[from..][n] == s[from + n]
  {
  }

  lemma SpellingBySecond(s: string)
    requires FlagAt(s) != NoFlag
    ensures Spelling(FlagAt(s)) == if s[1] == 'j' then "-j" else "--jobs="
  {
  }

  // Advance the index and the result together.
  method ClampJobsInString(s: string, limit: nat) returns (result: string)
    ensures result == Clamp(s, limit)
  {
    result := "";
    var i := 0;
    while i < |s|
      invariant i <= |s|
      invariant result + Clamp(s[i..], limit) == Clamp(s, limit)
    {
      if FlagAt(s[i..]) != NoFlag {
        FlagStep(s[i..], result, limit);
        var text, to := RewriteFlag(s, i, limit);
        i, result := to, result + text;
      } else {
        CopyStep(s[i..], result, limit);
        assert s[i..][1..] == s[i + 1..];
        result := result + [s[i]];
        i := i + 1;
      }
    }
  }

  method NumberOrLimit(s: string, from: nat, limit: nat) returns (number: string, to: nat)
    requires from <= |s|
    ensures from <= to <= |s|
    ensures var n := DigitRun(s[from..]);
            to == from + n && number == if n == 0 then Decimal(limit) else ClampNumber(s[from..][..n], limit)
  {
    if from < |s| && IsDigit(s[from]) {
      number, to := ParseAndClampNumber(s, from, limit);
      assert s[from..][..to - from] == s[from..to];
    } else {
      number, to := Decimal(limit), from;
    }
  }

  lemma FlagStep(s: string, before: string, limit: nat)
    requires FlagAt(s) != NoFlag
    ensures before + (Spelling(FlagAt(s)) + NumberFor(s, limit)) + Clamp(Remaining(s), limit) == before + Clamp(s, limit)
  {
    Regroup(before, Spelling(FlagAt(s)) + NumberFor(s, limit), Clamp(Remaining(s), limit));
  }

  lemma Regroup(a: string, b: string, c: string)
    ensures a + b + c == a + (b + c)
  {
  }

  lemma CopyStep(s: string, before: string, limit: nat)
    requires s != "" && FlagAt(s) == NoFlag
    ensures before + [s[0]] + Clamp(s[1..], limit) == before + Clamp(s, limit)
  {
  }

  // ---- Copied text keeps its meaning ----

  lemma HeadKept(s: string, limit: nat)
    ensures Clamp(s, limit) == "" <==> s == ""
    ensures s != "" ==> Clamp(s, limit)[0] == s[0]
  {
  }

  lemma JobsKept(s: string, limit: nat)
    ensures HasJobs(Clamp(s, limit)) <==> HasJobs(s)
    ensures HasJobs(s) ==> Clamp(s, limit)[4..] == Clamp(s[4..], limit)
  {
    JobsPrefix(s);
    JobsPrefix(Clamp(s, limit));
    PrefixKept(s, "jobs", limit);
  }

  predicate Starts(s: string, prefix: string) {
    prefix == "" || (s != "" && s[0] == prefix[0] && Starts(s[1..], prefix[1..]))
  }

  lemma StartsOne(s: string, c: char, prefix: string)
    ensures Starts(s, [c] + prefix) <==> s != "" && s[0] == c && Starts(s[1..], prefix)
  {
    assert ([c] + prefix)[1..] == prefix;
  }

  lemma JobsPrefix(s: string)
    ensures HasJobs(s) <==> Starts(s, "jobs")
  {
    StartsOne(s, 'j', "obs");
    assert ['j'] + "obs" == "jobs" && ['o'] + "bs" == "obs" && ['b'] + "s" == "bs" && ['s'] + "" == "s";
    if |s| >= 1 { StartsOne(s[1..], 'o', "bs"); }
    if |s| >= 2 { StartsOne(s[1..][1..], 'b', "s"); }
    if |s| >= 3 { StartsOne(s[1..][1..][1..], 's', ""); }
  }

  // A prefix that starts no option is copied, and no other text becomes it.
  lemma {:induction false} PrefixKept(s: string, prefix: string, limit: nat)
    requires '-' !in prefix
    ensures Starts(Clamp(s, limit), prefix) <==> Starts(s, prefix)
    ensures Starts(s, prefix) ==> |prefix| <= |s| && |prefix| <= |Clamp(s, limit)|
                                  && Clamp(s, limit)[|prefix|..] == Clamp(s[|prefix|..], limit)
  {
    KeptBehind(s, limit);
    if prefix == "" {
      assert s[0..] == s && Clamp(s, limit)[0..] == Clamp(s, limit);
    } else if s != "" && s[0] == prefix[0] {
      var r, n := Clamp(s, limit), |prefix| - 1;
      PrefixKept(s[1..], prefix[1..], limit);
      assert r[1..] == Clamp(s[1..], limit);
      assert n <= |s[1..]| ==> s[1..][n..] == s[n + 1..];
      assert n <= |r[1..]| ==> r[1..][n..] == r[n + 1..];
    }
  }

  // A character that starts no option is copied.
  lemma KeptBehind(s: string, limit: nat)
    ensures s != "" && s[0] != '-' ==> Clamp(s, limit) == [s[0]] + Clamp(s[1..], limit)
    ensures Clamp(s, limit) == "" <==> s == ""
    ensures s != "" ==> Clamp(s, limit)[0] == s[0]
  {
    HeadKept(s, limit);
  }

  lemma ShortHasDigit(s: string, limit: nat)
    requires FlagAt(s) == ShortFlag
    ensures var r := Clamp(s, limit); |r| >= 3 && r[0] == '-' && r[1] == 'j' && IsDigit(r[2])
  {
  }

  // Where no option was recognised, none is after the rest has been rewritten.
  lemma StillNoFlag(s: string, limit: nat)
    requires s != "" && FlagAt(s) == NoFlag
    ensures FlagAt([s[0]] + Clamp(s[1..], limit)) == NoFlag
  {
    var t := s[1..];
    assert s == [s[0]] + t;
    HeadKept(t, limit);
    if t != "" && s[0] == '-' {
      if t[0] == 'j' {
        StillNotShort(t, limit);
      } else if t[0] == '-' {
        StillNotLong(t, limit);
      }
    }
  }

  lemma StillNotShort(t: string, limit: nat)
    requires t != "" && t[0] == 'j' && FlagAt(['-'] + t) == NoFlag
    ensures FlagAt(['-'] + Clamp(t, limit)) == NoFlag
  {
    KeptBehind(t, limit);
    HeadKept(t[1..], limit);
    ShortByHead(t, Clamp(t, limit));
  }

  // The character behind `-j` decides.
  lemma ShortByHead(t: string, r: string)
    requires t != "" && r != "" && t[0] == r[0] == 'j' && (|t| == 1 <==> |r| == 1) && (|t| > 1 ==> t[1] == r[1])
    ensures FlagAt(['-'] + t) == FlagAt(['-'] + r)
  {
    assert |t| > 1 ==> (['-'] + t)[2] == (['-'] + r)[2];
  }

  lemma StillNotLong(t: string, limit: nat)
    requires t != "" && t[0] == '-' && FlagAt(['-'] + t) == NoFlag
    ensures FlagAt(['-'] + Clamp(t, limit)) == NoFlag
  {
    var r := ['-'] + Clamp(t, limit);
    HeadKept(t, limit);
    if FlagAt(t) == ShortFlag {
      ShortHasDigit(t, limit);
      assert r[2..][1] == r[3];
    } else if FlagAt(t) == LongFlag {
      assert Clamp(t, limit)[1] == '-';
      assert r[2..][0] == r[2];
    } else {
      assert t == "-" + t[1..] && r == "--" + Clamp(t[1..], limit);
      assert ['-'] + t == "--" + t[1..];
      DashesNotLong(t[1..], limit);
    }
  }

  lemma DashesNotLong(u: string, limit: nat)
    requires FlagAt("--" + u) == NoFlag
    ensures FlagAt("--" + Clamp(u, limit)) == NoFlag
  {
    var s, r := "--" + u, "--" + Clamp(u, limit);
    assert s[2..] == u && r[2..] == Clamp(u, limit);
    JobsKept(u, limit);
    if HasJobs(u) {
      HeadKept(u[4..], limit);
      assert r[6..] == Clamp(u, limit)[4..] && s[6..] == u[4..];
    }
  }

  // ---- Numbers ----

  // In range, or too long to be parsed.
  predicate Admissible(digits: string, limit: nat)
    requires Digits(digits)
  {
    1 <= DecimalValue(digits) <= limit || DecimalValue(digits) >= INT64_LIMIT
  }

  lemma ClampedIsAdmissible(digits: string, limit: nat)
    requires Digits(digits) && 1 <= limit
    ensures Admissible(ClampNumber(digits, limit), limit)
    ensures Admissible(digits, limit) && limit < INT64_LIMIT ==> ClampNumber(digits, limit) == digits
    ensures ClampNumber(digits, limit) != digits ==> ClampNumber(digits, limit) == Decimal(limit)
  {
    DecimalRoundTrip(limit);
  }

  lemma NumberAdmissible(s: string, limit: nat)
    requires FlagAt(s) != NoFlag && 1 <= limit
    ensures Admissible(NumberFor(s, limit), limit)
  {
    var t := AfterFlag(s);
    if DigitRun(t) == 0 {
      DecimalRoundTrip(limit);
    } else {
      ClampedIsAdmissible(t[..DigitRun(t)], limit);
    }
  }

  lemma {:induction false} DigitRunOf(digits: string, rest: string)
    requires forall i :: 0 <= i < |digits| ==> IsDigit(digits[i])
    requires rest != "" ==> !IsDigit(rest[0])
    ensures DigitRun(digits + rest) == |digits|
  {
    if digits == "" {
      assert digits + rest == rest;
    } else {
      assert (digits + rest)[1..] == digits[1..] + rest;
      DigitRunOf(digits[1..], rest);
    }
  }

  // An option spelled out, with its number, is recognised as itself.
  lemma SpelledFlag(flag: Flag, digits: string, rest: string)
    requires flag != NoFlag && Digits(digits) && (rest != "" ==> !IsDigit(rest[0]))
    ensures var r := Spelling(flag) + digits + rest;
            && FlagAt(r) == flag && AfterFlag(r) == digits + rest
            && DigitRun(AfterFlag(r)) == |digits| && Remaining(r) == rest
  {
    var tail := digits + rest;
    DigitRunOf(digits, rest);
    assert tail[|digits|..] == rest;
    assert Spelling(flag) + digits + rest == Spelling(flag) + tail;
    assert IsDigit(tail[0]);
    if flag == ShortFlag {
      SpelledShort(tail);
    } else {
      SpelledLong(tail);
    }
  }

  lemma SpelledShort(tail: string)
    requires tail != "" && IsDigit(tail[0])
    ensures FlagAt("-j" + tail) == ShortFlag && AfterFlag("-j" + tail) == tail
  {
    var r := "-j" + tail;
    assert r[2] == tail[0] && r[2..] == tail;
  }

  lemma SpelledLong(tail: string)
    ensures FlagAt("--jobs=" + tail) == LongFlag && AfterFlag("--jobs=" + tail) == tail
  {
    var r := "--jobs=" + tail;
    assert r[2..][0] == 'j' && r[2..][1] == 'o' && r[2..][2] == 'b' && r[2..][3] == 's';
    assert r[7..] == tail;
  }

  lemma ClampedFlag(s: string, limit: nat)
    requires FlagAt(s) != NoFlag
    ensures var r := Clamp(s, limit);
            && FlagAt(r) == FlagAt(s) && AfterFlag(r) == NumberFor(s, limit) + Clamp(Remaining(s), limit)
            && DigitRun(AfterFlag(r)) == |NumberFor(s, limit)| && Remaining(r) == Clamp(Remaining(s), limit)
  {
    HeadKept(Remaining(s), limit);
    SpelledFlag(FlagAt(s), NumberFor(s, limit), Clamp(Remaining(s), limit));
  }

  // ---- Main results ----

  // Clamping twice is clamping once.
  lemma {:induction false} ClampIdempotent(s: string, limit: nat)
    requires 1 <= limit < INT64_LIMIT
    ensures Clamp(Clamp(s, limit), limit) == Clamp(s, limit)
    decreases |s|
  {
    if s != "" {
      var r := Clamp(s, limit);
      if FlagAt(s) == NoFlag {
        StillNoFlag(s, limit);
        ClampIdempotent(s[1..], limit);
        assert r[1..] == Clamp(s[1..], limit);
      } else {
        var number := NumberFor(s, limit);
        ClampedFlag(s, limit);
        NumberAdmissible(s, limit);
        ClampedIsAdmissible(number, limit);
        assert AfterFlag(r)[..|number|] == number;
        assert NumberFor(r, limit) == number;
        ClampIdempotent(Remaining(s), limit);
      }
    }
  }

  // The option at the start of r carries a number, and an admissible one.
  predicate Governed(r: string, limit: nat)
    requires FlagAt(r) != NoFlag
  {
    var t := AfterFlag(r);
    DigitRun(t) > 0 && Admissible(t[..DigitRun(t)], limit)
  }

  // What is read as an option at position p is.
  predicate GovernedAt(r: string, p: nat, limit: nat)
    requires p <= |r|
  {
    FlagAt(r[p..]) != NoFlag ==> Governed(r[p..], limit)
  }

  // Whatever reads the result and finds an option, at any position, finds a number in
  // 1..limit behind it, or one of 2^63 and more that was never parsed.
  lemma {:induction false} EveryFlagGoverned(s: string, limit: nat, p: nat)
    requires 1 <= limit && p <= |Clamp(s, limit)|
    ensures GovernedAt(Clamp(s, limit), p, limit)
    decreases |s|
  {
    if s == "" {
    } else if p == 0 {
      FirstGoverned(s, limit);
    } else if FlagAt(s) == NoFlag {
      EveryFlagGoverned(s[1..], limit, p - 1);
      GovernedBehind([s[0]], Clamp(s[1..], limit), p, limit);
    } else {
      var piece := Spelling(FlagAt(s)) + NumberFor(s, limit);
      if p < |piece| {
        InsidePiece(s, limit, p);
      } else {
        EveryFlagGoverned(Remaining(s), limit, p - |piece|);
        GovernedBehind(piece, Clamp(Remaining(s), limit), p, limit);
      }
    }
  }

  lemma GovernedBehind(head: string, tail: string, p: nat, limit: nat)
    requires |head| <= p <= |head + tail| && GovernedAt(tail, p - |head|, limit)
    ensures GovernedAt(head + tail, p, limit)
  {
    assert (head + tail)[p..] == tail[p - |head|..];
  }

  lemma FirstGoverned(s: string, limit: nat)
    requires 1 <= limit && s != ""
    ensures GovernedAt(Clamp(s, limit), 0, limit)
  {
    assert Clamp(s, limit)[0..] == Clamp(s, limit);
    if FlagAt(s) == NoFlag {
      StillNoFlag(s, limit);
    } else {
      RewrittenGoverned(s, limit);
    }
  }

  lemma RewrittenGoverned(s: string, limit: nat)
    requires 1 <= limit && FlagAt(s) != NoFlag
    ensures var r := Clamp(s, limit); FlagAt(r) != NoFlag && Governed(r, limit)
  {
    ClampedFlag(s, limit);
    NumberAdmissible(s, limit);
    assert AfterFlag(Clamp(s, limit))[..|NumberFor(s, limit)|] == NumberFor(s, limit);
  }

  lemma InsidePiece(s: string, limit: nat, p: nat)
    requires FlagAt(s) != NoFlag && 0 < p < |Spelling(FlagAt(s)) + NumberFor(s, limit)|
    ensures FlagAt(Clamp(s, limit)[p..]) == NoFlag
  {
    var head, number := Spelling(FlagAt(s)), NumberFor(s, limit);
    var r := Clamp(s, limit);
    assert r == head + number + Clamp(Remaining(s), limit);
    if p >= |head| {
      assert r[p..][0] == number[p - |head|];
    } else {
      assert r[p..][0] == head[p];
      if p == 1 && FlagAt(s) == LongFlag {
        assert r[p..][1] == 'j' && r[p..][2] == 'o';
      }
    }
  }

  // Text without options is left alone.
  lemma {:induction false} UntouchedWithoutFlags(s: string, limit: nat)
    requires forall p :: 0 <= p < |s| ==> FlagAt(s[p..]) == NoFlag
    ensures Clamp(s, limit) == s
  {
    if s != "" {
      assert s[0..] == s;
      forall p | 0 <= p < |s[1..]| ensures FlagAt(s[1..][p..]) == NoFlag {
        assert s[1..][p..] == s[p + 1..];
      }
      UntouchedWithoutFlags(s[1..], limit);
    }
  }

  // The space between a bare option and the next word is consumed, so that word is
  // glued to the number: `-j -k` becomes `-j4-k`.
  lemma BareFlagGluesNextToken(next: string, limit: nat)
    requires next != "" && !IsDigit(next[0])
    ensures Clamp("-j " + next, limit) == "-j" + Decimal(limit) + Clamp(next, limit)
    ensures Clamp("--jobs " + next, limit) == "--jobs=" + Decimal(limit) + Clamp(next, limit)
  {
    var short, long := "-j " + next, "--jobs " + next;
    assert short[2..][1..] == next;
    assert FlagAt(short) == ShortFlag && Remaining(short) == next && NumberFor(short, limit) == Decimal(limit);
    assert long[2..][0] == 'j' && long[2..][1] == 'o' && long[2..][2] == 'b' && long[2..][3] == 's';
    assert long[7..] == next;
    assert FlagAt(long) == LongFlag && Remaining(long) == next && NumberFor(long, limit) == Decimal(limit);
  }

  // An option with a number, in whatever way it is spelled.
  lemma NumberedForm(s: string, digits: string, next: string, limit: nat)
    requires Digits(digits) && (next != "" ==> !IsDigit(next[0]))
    requires FlagAt(s) != NoFlag && AfterFlag(s) == digits + next
    ensures Clamp(s, limit) == Spelling(FlagAt(s)) + ClampNumber(digits, limit) + Clamp(next, limit)
  {
    DigitRunOf(digits, next);
    assert (digits + next)[..|digits|] == digits && (digits + next)[|digits|..] == next;
  }

  // Every spelling of the short option is recognised, its number clamped and attached.
  lemma ShortFormsClamped(digits: string, next: string, limit: nat)
    requires Digits(digits) && (next != "" ==> !IsDigit(next[0]))
    ensures var clamped := "-j" + ClampNumber(digits, limit) + Clamp(next, limit);
            && Clamp("-j" + (digits + next), limit) == clamped && Clamp("-j=" + (digits + next), limit) == clamped
            && Clamp("-j " + (digits + next), limit) == clamped && Clamp("-j= " + (digits + next), limit) == clamped
  {
    var tail := digits + next;
    SpelledShort(tail);
    SeparatedShort(tail);
    NumberedForm("-j" + tail, digits, next, limit);
    NumberedForm("-j=" + tail, digits, next, limit);
    NumberedForm("-j " + tail, digits, next, limit);
    NumberedForm("-j= " + tail, digits, next, limit);
  }

  lemma SeparatedShort(tail: string)
    requires tail != "" && IsDigit(tail[0])
    ensures FlagAt("-j=" + tail) == ShortFlag && AfterFlag("-j=" + tail) == tail
    ensures FlagAt("-j " + tail) == ShortFlag && AfterFlag("-j " + tail) == tail
    ensures FlagAt("-j= " + tail) == ShortFlag && AfterFlag("-j= " + tail) == tail
  {
    assert ("-j=" + tail)[3..] == tail;
    assert ("-j " + tail)[2..][1..] == tail;
    assert ("-j= " + tail)[3..][1..] == tail;
  }

  lemma LongFormsClamped(digits: string, next: string, limit: nat)
    requires Digits(digits) && (next != "" ==> !IsDigit(next[0]))
    ensures var clamped := "--jobs=" + ClampNumber(digits, limit) + Clamp(next, limit);
            Clamp("--jobs=" + (digits + next), limit) == clamped && Clamp("--jobs " + (digits + next), limit) == clamped
  {
    var tail := digits + next;
    SpelledLong(tail);
    NumberedForm("--jobs=" + tail, digits, next, limit);
    var spaced := "--jobs " + tail;
    assert spaced[2..][0] == 'j' && spaced[2..][1] == 'o' && spaced[2..][2] == 'b' && spaced[2..][3] == 's';
    assert spaced[7..] == tail;
    NumberedForm(spaced, digits, next, limit);
  }

  // An option at the end gets the limit.
  lemma BareForm(s: string, limit: nat)
    requires FlagAt(s) != NoFlag && AfterFlag(s) == ""
    ensures Clamp(s, limit) == Spelling(FlagAt(s)) + Decimal(limit)
  {
    assert Remaining(s) == "" && NumberFor(s, limit) == Decimal(limit);
    assert Clamp("", limit) == "";
  }

  lemma BareFormsClamped(limit: nat)
    ensures Clamp("-j", limit) == "-j" + Decimal(limit) && Clamp("--jobs", limit) == "--jobs=" + Decimal(limit)
  {
    BareFlags();
    BareForm("-j", limit);
    BareForm("--jobs", limit);
  }

  lemma BareFlags()
    ensures FlagAt("-j") == ShortFlag && AfterFlag("-j") == ""
    ensures FlagAt("--jobs") == LongFlag && AfterFlag("--jobs") == ""
  {
    var long := "--jobs";
    assert long[2..][0] == 'j' && long[2..][1] == 'o' && long[2..][2] == 'b' && long[2..][3] == 's';
  }

  // Words that only begin like an option, such as `--jobserver-auth`, are none.
  lemma OtherOptionsCopied(tail: string, limit: nat)
    requires tail != "" && tail[0] != '=' && tail[0] != ' '
    ensures !IsDigit(tail[0]) ==> Clamp("-j" + tail, limit) == "-j" + Clamp(tail, limit)
    ensures Clamp("--jobs" + tail, limit) == "--jobs" + Clamp(tail, limit)
  {
    if !IsDigit(tail[0]) {
      ShortNotFlag(tail, limit);
    }
    LongNotFlag(tail, limit);
  }

  lemma ShortNotFlag(tail: string, limit: nat)
    requires tail != "" && tail[0] != '=' && tail[0] != ' ' && !IsDigit(tail[0])
    ensures Clamp("-j" + tail, limit) == "-j" + Clamp(tail, limit)
  {
    ShortStarts(tail);
    DashCopied("j" + tail, limit);
    CopyPlain("j", tail, limit);
    OneDash(tail);
    OneDash(Clamp(tail, limit));
  }

  lemma ShortStarts(tail: string)
    requires tail != "" && tail[0] != '=' && tail[0] != ' ' && !IsDigit(tail[0])
    ensures FlagAt("-" + ("j" + tail)) == NoFlag
  {
    assert ("-" + ("j" + tail))[2] == tail[0];
  }

  lemma OneDash(s: string)
    ensures "-" + ("j" + s) == "-j" + s
  {
  }

  lemma {:induction false} CopyPlain(prefix: string, tail: string, limit: nat)
    requires '-' !in prefix
    ensures Clamp(prefix + tail, limit) == prefix + Clamp(tail, limit)
  {
    if prefix == "" {
      assert prefix + tail == tail;
    } else {
      var c, rest := prefix[0], prefix[1..];
      CopyPlain(rest, tail, limit);
      CharCopied(c, rest + tail, limit);
      Regroup([c], rest, tail);
      Regroup([c], rest, Clamp(tail, limit));
      assert prefix == [c] + rest;
    }
  }

  lemma CharCopied(c: char, s: string, limit: nat)
    requires c != '-'
    ensures Clamp([c] + s, limit) == [c] + Clamp(s, limit)
  {
    assert ([c] + s)[1..] == s;
  }

  lemma DashCopied(rest: string, limit: nat)
    requires FlagAt("-" + rest) == NoFlag
    ensures Clamp("-" + rest, limit) == "-" + Clamp(rest, limit)
  {
    assert ("-" + rest)[1..] == rest;
  }

  lemma LongNotFlag(tail: string, limit: nat)
    requires tail != "" && tail[0] != '=' && tail[0] != ' '
    ensures Clamp("--jobs" + tail, limit) == "--jobs" + Clamp(tail, limit)
  {
    var word := "jobs" + tail;
    LongStarts(tail);
    DashCopied("-" + word, limit);
    DashCopied(word, limit);
    CopyPlain("jobs", tail, limit);
    Dashes(tail);
    Dashes(Clamp(tail, limit));
  }

  lemma Dashes(s: string)
    ensures "-" + ("-" + ("jobs" + s)) == "--jobs" + s
  {
  }

  lemma LongStarts(tail: string)
    requires tail != "" && tail[0] != '=' && tail[0] != ' '
    ensures FlagAt("-" + ("-" + ("jobs" + tail))) == NoFlag && FlagAt("-" + ("jobs" + tail)) == NoFlag
  {
    var s, t := "-" + ("-" + ("jobs" + tail)), "-" + ("jobs" + tail);
    assert s[6] == tail[0] && s[1] == '-' && t[1] == 'j' && t[2] == 'o';
  }

  // A separated number is attached to its option with what follows it, so a word that
  // only begins with digits is glued too: `-j 5abc` becomes `-j4abc`.
  lemma SeparatedNumberAttached(digits: string, next: string, limit: nat)
    requires Digits(digits) && (next != "" ==> !IsDigit(next[0]))
    ensures Clamp("-j " + digits + next, limit) == "-j" + ClampNumber(digits, limit) + Clamp(next, limit)
  {
    var tail := digits + next;
    var s := "-j " + tail;
    assert "-j " + digits + next == s;
    DigitRunOf(digits, next);
    assert s[2..][1..] == tail;
    assert FlagAt(s) == ShortFlag && AfterFlag(s) == tail;
    assert tail[..|digits|] == digits && tail[|digits|..] == next;
    assert NumberFor(s, limit) == ClampNumber(digits, limit) && Remaining(s) == next;
  }
}
