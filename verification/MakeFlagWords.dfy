/**
 * What clamping does to the words of a MAKEFLAGS value that are no job options. The
 * comment in the source says that all of them are copied byte for byte; this module
 * says exactly when they are.
 */
module MakeFlagWords {
  import opened Text
  import opened MakeFlags

  // The first word, and what is behind the space that ends it.
  function Word(s: string): string {
    if s == "" || s[0] == ' ' then "" else [s[0]] + Word(s[1..])
  }

  function Behind(s: string): (r: Option<string>)
    ensures r.Some? ==> |r.value| < |s|
  {
    if s == "" then None else if s[0] == ' ' then Some(s[1..]) else Behind(s[1..])
  }

  // The option at the start of s has no number in its word and takes the space.
  predicate TakesSpace(s: string)
    requires FlagAt(s) != NoFlag
  {
    if FlagAt(s) == LongFlag then |s| > 6 && s[6] == ' '
    else |s| > 2 && (s[2] == ' ' || (s[2] == '=' && |s| > 3 && s[3] == ' '))
  }

  // The first word ends in such an option.
  predicate Bare(s: string)
    decreases |s|
  {
    if s == "" || s[0] == ' ' then false
    else if FlagAt(s) == NoFlag then Bare(s[1..])
    else TakesSpace(s) || Bare(Remaining(s))
  }

  // The word is an option, with or without its number, and nothing else.
  predicate JobOption(word: string) {
    FlagAt(word) != NoFlag && Remaining(word) == ""
  }

  // A word that is neither an option nor the number of the option before.
  predicate Ordinary(word: string, taken: bool) {
    word != "" && !JobOption(word) && !(taken && Digits(word))
  }

  // The ordinary words of s in order; `taken` when a bare option took the space before s.
  function OtherWords(s: string, taken: bool): seq<string>
    decreases |s|, 1
  {
    (if Ordinary(Word(s), taken) then [Word(s)] else []) + OtherWordsBehind(s)
  }

  function OtherWordsBehind(s: string): seq<string>
    decreases |s|, 0
  {
    if Behind(s).None? then [] else OtherWords(Behind(s).value, Bare(s))
  }

  // The option at the start of s has its number attached, as the scanner writes it.
  predicate Attached(s: string)
    requires FlagAt(s) != NoFlag
  {
    if FlagAt(s) == LongFlag then |s| > 7 && s[6] == '=' && IsDigit(s[7]) else |s| > 2 && IsDigit(s[2])
  }

  // Every option the scanner recognises in the first word has an attached number that
  // needs no clamping.
  predicate Settled(s: string, limit: nat)
    decreases |s|
  {
    if s == "" || s[0] == ' ' then true
    else if FlagAt(s) == NoFlag then Settled(s[1..], limit)
    else Attached(s) && Governed(s, limit) && Settled(Remaining(s), limit)
  }

  // No ordinary word holds an option that needs rewriting, and nothing but a number
  // stands directly behind a bare option.
  predicate Respected(s: string, limit: nat, taken: bool)
    decreases |s|, 1
  {
    && (Ordinary(Word(s), taken) ==> Settled(s, limit))
    && (taken ==> Word(s) == "" || Digits(Word(s)))
    && RespectedBehind(s, limit)
  }

  predicate RespectedBehind(s: string, limit: nat)
    decreases |s|, 0
  {
    Behind(s).Some? ==> Respected(Behind(s).value, limit, Bare(s))
  }

  // ---- Words ----

  lemma {:induction false} WordIs(s: string)
    ensures |Word(s)| <= |s| && Word(s) == s[..|Word(s)|]
    ensures |Word(s)| < |s| ==> s[|Word(s)|] == ' '
    ensures forall i :: 0 <= i < |Word(s)| ==> s[i] != ' '
  {
    if s != "" && s[0] != ' ' {
      WordIs(s[1..]);
      var n := |Word(s[1..])|;
      assert s[..n + 1] == [s[0]] + s[1..][..n];
      forall i | 0 <= i < n + 1 ensures s[i] != ' ' {
        if i > 0 { assert s[i] == s[1..][i - 1]; }
      }
    }
  }

  // A space behind a word is as good as its end.
  lemma FlagOfWord(s: string)
    ensures FlagAt(Word(s)) == FlagAt(s)
  {
    WordIs(s);
    var w := Word(s);
    assert forall i :: 0 <= i < |w| ==> w[i] == s[i];
    if |w| >= 6 {
      assert w[2..][0] == w[2] && w[2..][1] == w[3] && w[2..][2] == w[4] && w[2..][3] == w[5];
      assert s[2..][0] == s[2] && s[2..][1] == s[3] && s[2..][2] == s[4] && s[2..][3] == s[5];
    } else if |s| >= 6 {
      assert s[2..][0] == s[2] && s[2..][1] == s[3] && s[2..][2] == s[4] && s[2..][3] == s[5];
    }
  }

  // A prefix without spaces belongs to the first word.
  lemma {:induction false} PrefixOfWord(head: string, tail: string)
    requires ' ' !in head
    ensures Word(head + tail) == head + Word(tail) && Behind(head + tail) == Behind(tail)
  {
    var s := head + tail;
    if head == "" {
      assert s == tail;
    } else {
      assert s[1..] == head[1..] + tail && s[0] == head[0] && head[0] in head;
      PrefixOfWord(head[1..], tail);
      assert head == [head[0]] + head[1..];
    }
  }

  // What the scanner takes of s for the option at its start.
  function Taken(s: string): string
    requires FlagAt(s) != NoFlag
  {
    s[..|s| - |Remaining(s)|]
  }

  lemma TakenText(s: string)
    requires FlagAt(s) != NoFlag
    ensures s == Taken(s) + Remaining(s)
    ensures !TakesSpace(s) ==> ' ' !in Taken(s)
    ensures Attached(s) ==> !TakesSpace(s) && Taken(s) == Spelling(FlagAt(s)) + AfterFlag(s)[..DigitRun(AfterFlag(s))]
  {
    var t := AfterFlag(s);
    var n := DigitRun(t);
    var k := |s| - |t|;
    assert s[k..] == t;
    assert Remaining(s) == s[k + n..];
    assert Taken(s) == s[..k] + t[..n];
    FlagText(s);
  }

  // The option itself, up to where its number would start.
  lemma FlagText(s: string)
    requires FlagAt(s) != NoFlag
    ensures var k := |s| - |AfterFlag(s)|;
            && (!TakesSpace(s) ==> ' ' !in s[..k])
            && (TakesSpace(s) ==> k > 0 && s[k - 1] == ' ' && ' ' !in s[..k - 1])
            && (Attached(s) ==> !TakesSpace(s) && s[..k] == Spelling(FlagAt(s)))
  {
    if FlagAt(s) == LongFlag {
      var j := s[2..];
      assert j[0] == s[2] && j[1] == s[3] && j[2] == s[4] && j[3] == s[5];
    }
  }

  // An option that takes no space stays within its word.
  lemma BehindFlag(s: string)
    requires FlagAt(s) != NoFlag && !TakesSpace(s)
    ensures Word(s) == Taken(s) + Word(Remaining(s)) && Behind(s) == Behind(Remaining(s))
  {
    TakenText(s);
    PrefixOfWord(Taken(s), Remaining(s));
  }

  lemma BehindBareFlag(s: string)
    requires FlagAt(s) != NoFlag && TakesSpace(s)
    ensures Behind(s) == Some(AfterFlag(s))
  {
    FlagText(s);
    var k := |s| - |AfterFlag(s)|;
    var head, tail := s[..k - 1], [' '] + AfterFlag(s);
    assert s == head + tail;
    PrefixOfWord(head, tail);
    assert tail[1..] == AfterFlag(s);
  }

  // Digits at the start of a word change nothing behind it.
  lemma {:induction false} DigitsSkipped(s: string, n: nat)
    requires n <= DigitRun(s)
    ensures Behind(s[n..]) == Behind(s) && Bare(s[n..]) == Bare(s)
  {
    if n == 0 {
      assert s[n..] == s;
    } else {
      var tail := s[1..];
      DigitSkipped(s);
      DigitsSkipped(tail, n - 1);
      assert tail[n - 1..] == s[n..];
    }
  }

  lemma DigitSkipped(s: string)
    requires s != "" && IsDigit(s[0])
    ensures Behind(s[1..]) == Behind(s) && Bare(s[1..]) == Bare(s)
  {
  }

  // ---- The words of the result ----

  predicate SettledAll(s: string, limit: nat)
    decreases |s|
  {
    Settled(s, limit) && (Behind(s).Some? ==> SettledAll(Behind(s).value, limit))
  }

  lemma {:induction false} SettledNotBare(s: string, limit: nat)
    requires Settled(s, limit)
    ensures !Bare(s)
    decreases |s|
  {
    if s != "" && s[0] != ' ' {
      if FlagAt(s) == NoFlag {
        SettledNotBare(s[1..], limit);
      } else {
        TakenText(s);
        SettledNotBare(Remaining(s), limit);
      }
    }
  }

  // A number attached to the option it belongs to.
  lemma SpelledAttached(flag: Flag, digits: string, rest: string, limit: nat)
    requires flag != NoFlag && Digits(digits) && (rest != "" ==> !IsDigit(rest[0])) && Admissible(digits, limit)
    ensures var r := Spelling(flag) + digits + rest;
            FlagAt(r) == flag && Attached(r) && Governed(r, limit) && Remaining(r) == rest
  {
    var r := Spelling(flag) + digits + rest;
    SpelledFlag(flag, digits, rest);
    assert AfterFlag(r)[..|digits|] == digits;
    assert r[|Spelling(flag)|] == digits[0];
    assert flag == LongFlag ==> r[6] == '=';
  }

  // A rewritten option, as its reader finds it.
  lemma RewrittenFlag(s: string, limit: nat)
    requires FlagAt(s) != NoFlag && 1 <= limit
    ensures var r := Clamp(s, limit);
            FlagAt(r) == FlagAt(s) && Attached(r) && Governed(r, limit) && Remaining(r) == Clamp(Remaining(s), limit)
    ensures Behind(Clamp(s, limit)) == Behind(Clamp(Remaining(s), limit))
  {
    NumberAdmissible(s, limit);
    HeadKept(Remaining(s), limit);
    SpelledAttached(FlagAt(s), NumberFor(s, limit), Clamp(Remaining(s), limit), limit);
    BehindAttached(Clamp(s, limit));
  }

  lemma BehindAttached(s: string)
    requires FlagAt(s) != NoFlag && Attached(s)
    ensures Behind(s) == Behind(Remaining(s))
  {
    TakenText(s);
    BehindFlag(s);
  }

  lemma {:induction false} ResultSettled(s: string, limit: nat)
    requires 1 <= limit
    ensures SettledAll(Clamp(s, limit), limit)
    decreases |s|
  {
    if s != "" {
      var r := Clamp(s, limit);
      if FlagAt(s) == NoFlag {
        StillNoFlag(s, limit);
        ResultSettled(s[1..], limit);
        assert r[1..] == Clamp(s[1..], limit);
      } else {
        RewrittenFlag(s, limit);
        ResultSettled(Remaining(s), limit);
      }
    }
  }

  // A word without an option to rewrite is copied.
  lemma {:induction false} SettledCopied(s: string, limit: nat)
    requires Settled(s, limit) && 1 <= limit < INT64_LIMIT
    ensures Word(Clamp(s, limit)) == Word(s)
    decreases |s|
  {
    if s != "" {
      var r := Clamp(s, limit);
      if s[0] == ' ' {
      } else if FlagAt(s) == NoFlag {
        SettledCopied(s[1..], limit);
        assert r[1..] == Clamp(s[1..], limit);
      } else {
        var rest := Remaining(s);
        SettledCopied(rest, limit);
        TakenText(s);
        ClampedIsAdmissible(AfterFlag(s)[..DigitRun(AfterFlag(s))], limit);
        assert r == Taken(s) + Clamp(rest, limit);
        PrefixOfWord(Taken(s), Clamp(rest, limit));
        BehindFlag(s);
      }
    }
  }

  lemma FlagKept(s: string, limit: nat)
    ensures FlagAt(Clamp(s, limit)) == FlagAt(s)
  {
    if s != "" {
      if FlagAt(s) == NoFlag { StillNoFlag(s, limit); } else { ClampedFlag(s, limit); }
    }
  }

  // ---- The first word, when it is an option ----

  // An option, cut out of its line.
  lemma RemainingOfWord(s: string)
    requires FlagAt(s) != NoFlag
    ensures FlagAt(Word(s)) == FlagAt(s)
    ensures Remaining(Word(s)) == if TakesSpace(s) then "" else Word(Remaining(s))
  {
    FlagOfWord(s);
    AfterFlagOfWord(s);
    if !TakesSpace(s) {
      DigitRunOfWord(AfterFlag(s));
    }
  }

  lemma AfterFlagOfWord(s: string)
    requires FlagAt(s) != NoFlag && FlagAt(Word(s)) == FlagAt(s)
    ensures AfterFlag(Word(s)) == if TakesSpace(s) then "" else Word(AfterFlag(s))
  {
    FlagText(s);
    var k := |s| - |AfterFlag(s)|;
    if TakesSpace(s) {
      WordBefore(s, k - 1);
    } else {
      WordBefore(s, k);
      assert s[k..] == AfterFlag(s);
      assert Word(s)[k..] == Word(s[k..]);
    }
  }

  lemma WordBefore(s: string, k: nat)
    requires k <= |s| && ' ' !in s[..k]
    ensures Word(s) == s[..k] + Word(s[k..])
  {
    PrefixOfWord(s[..k], s[k..]);
    assert s == s[..k] + s[k..];
  }

  lemma {:induction false} DigitRunOfWord(s: string)
    ensures DigitRun(Word(s)) == DigitRun(s) && Word(s)[DigitRun(s)..] == Word(s[DigitRun(s)..])
  {
    if s != "" && IsDigit(s[0]) {
      DigitRunOfWord(s[1..]);
      assert Word(s)[1..] == Word(s[1..]);
      assert s[1..][DigitRun(s[1..])..] == s[DigitRun(s)..];
      assert Word(s)[DigitRun(s)..] == Word(s[1..])[DigitRun(s[1..])..];
    } else {
      assert s[0..] == s && Word(s)[0..] == Word(s);
    }
  }

  // Something that is no number stands directly behind the bare option of the first word.
  predicate Glued(s: string) {
    Bare(s) && Behind(s).Some? && Word(Behind(s).value) != "" && !Digits(Word(Behind(s).value))
  }

  // An option remains one, unless something is glued to it.
  lemma OptionKept(s: string, limit: nat)
    requires 1 <= limit && JobOption(Word(s))
    ensures JobOption(Word(Clamp(s, limit))) <==> !Glued(s)
  {
    var r := Clamp(s, limit);
    FlagOfWord(s);
    RewrittenFlag(s, limit);
    TakenText(r);
    RemainingOfWord(s);
    RemainingOfWord(r);
    HeadKept(Remaining(s), limit);
    GluedOption(s);
  }

  lemma GluedOption(s: string)
    requires FlagAt(s) != NoFlag && (TakesSpace(s) || Word(Remaining(s)) == "")
    ensures Glued(s) <==> Word(Remaining(s)) != ""
  {
    if TakesSpace(s) {
      BehindBareFlag(s);
      NumberOrGlued(AfterFlag(s));
    } else {
      assert !Bare(Remaining(s));
    }
  }

  lemma NumberOrGlued(s: string)
    ensures Word(s[DigitRun(s)..]) == "" <==> Word(s) == "" || Digits(Word(s))
  {
    DigitRunOfWord(s);
    var w := Word(s);
    if Digits(w) {
      assert DigitRun(w) == |w|;
    }
  }

  lemma NotGlued(s: string, limit: nat)
    requires RespectedBehind(s, limit)
    ensures !Glued(s)
  {
    if Behind(s).Some? {
      assert Respected(Behind(s).value, limit, Bare(s));
    }
  }

  // A respected first word comes out unchanged, or is an option before and after.
  lemma FirstWordKept(s: string, limit: nat)
    requires 1 <= limit < INT64_LIMIT && Respected(s, limit, false)
    ensures Ordinary(Word(Clamp(s, limit)), false) <==> Ordinary(Word(s), false)
    ensures Ordinary(Word(s), false) ==> Word(Clamp(s, limit)) == Word(s)
  {
    HeadKept(s, limit);
    if JobOption(Word(s)) {
      NotGlued(s, limit);
      OptionKept(s, limit);
    } else if Word(s) != "" {
      SettledCopied(s, limit);
    }
  }

  // ---- Respected words are copied ----

  lemma OthersBehindFlag(s: string, limit: nat)
    requires 1 <= limit && FlagAt(s) != NoFlag
    ensures OtherWordsBehind(Clamp(s, limit)) == OtherWordsBehind(Clamp(Remaining(s), limit))
  {
    RewrittenFlag(s, limit);
    TakenText(Clamp(s, limit));
  }

  // A number behind a bare option belongs to it, so the next word counts.
  lemma RespectedBehindFlag(s: string, limit: nat)
    requires FlagAt(s) != NoFlag && RespectedBehind(s, limit)
    ensures RespectedBehind(Remaining(s), limit) && OtherWordsBehind(s) == OtherWordsBehind(Remaining(s))
  {
    if TakesSpace(s) {
      var after := AfterFlag(s);
      BehindBareFlag(s);
      assert Bare(s) && Respected(after, limit, true) && RespectedBehind(after, limit);
      DigitsSkipped(after, DigitRun(after));
      assert OtherWords(after, true) == OtherWordsBehind(after);
    } else {
      BehindFlag(s);
    }
  }

  lemma {:induction false} CopiedBehind(s: string, limit: nat)
    requires 1 <= limit < INT64_LIMIT && RespectedBehind(s, limit)
    ensures OtherWordsBehind(Clamp(s, limit)) == OtherWordsBehind(s)
    decreases |s|
  {
    if s != "" {
      if FlagAt(s) != NoFlag {
        RespectedBehindFlag(s, limit);
        OthersBehindFlag(s, limit);
        CopiedBehind(Remaining(s), limit);
      } else {
        StillNoFlag(s, limit);
        assert Clamp(s, limit)[1..] == Clamp(s[1..], limit);
        CopiedBehind(s[1..], limit);
        if s[0] == ' ' {
          FirstWordKept(s[1..], limit);
        }
      }
    }
  }

  // ---- A word glued to an option adds an option to the ordinary words ----

  // How many options the scanner finds in the first word.
  function Options(s: string): nat
    decreases |s|
  {
    if s == "" || s[0] == ' ' then 0
    else if FlagAt(s) == NoFlag then Options(s[1..])
    else 1 + if TakesSpace(s) then 0 else Options(Remaining(s))
  }

  function OptionsIn(words: seq<string>): nat {
    if words == [] then 0 else Options(words[0]) + OptionsIn(words[1..])
  }

  // The options of the first word, whatever it is, and of the ordinary words behind it.
  function Weight(s: string): nat { Options(s) + OptionsIn(OtherWordsBehind(s)) }

  lemma {:induction false} OptionsOfWord(s: string)
    ensures Options(Word(s)) == Options(s)
    decreases |s|
  {
    if s != "" && s[0] != ' ' {
      FlagOfWord(s);
      if FlagAt(s) == NoFlag {
        OptionsOfWord(s[1..]);
        assert Word(s)[1..] == Word(s[1..]);
      } else {
        WordIs(s);
        RemainingOfWord(s);
        OptionsOfWord(Remaining(s));
      }
    }
  }

  lemma OptionsInOthers(s: string, taken: bool)
    ensures OptionsIn(OtherWords(s, taken)) ==
              (if Ordinary(Word(s), taken) then Options(s) else 0) + OptionsIn(OtherWordsBehind(s))
  {
    OptionsOfWord(s);
    var behind := OtherWordsBehind(s);
    assert ([Word(s)] + behind)[1..] == behind;
    assert [] + behind == behind;
  }

  lemma {:induction false} OptionsSkipDigits(s: string, n: nat)
    requires n <= DigitRun(s)
    ensures Options(s[n..]) == Options(s)
  {
    if n == 0 {
      assert s[n..] == s;
    } else {
      var tail := s[1..];
      OptionsSkipDigit(s);
      OptionsSkipDigits(tail, n - 1);
      assert tail[n - 1..] == s[n..];
    }
  }

  lemma OptionsSkipDigit(s: string)
    requires s != "" && IsDigit(s[0])
    ensures Options(s[1..]) == Options(s)
  {
  }

  predicate OrdinarySettled(s: string, limit: nat, taken: bool)
    decreases |s|, 1
  {
    (Ordinary(Word(s), taken) ==> Settled(s, limit)) && SettledBehind(s, limit)
  }

  predicate SettledBehind(s: string, limit: nat)
    decreases |s|, 0
  {
    Behind(s).Some? ==> OrdinarySettled(Behind(s).value, limit, Bare(s))
  }

  lemma WeightBehindFlag(s: string, limit: nat)
    requires FlagAt(s) != NoFlag && SettledBehind(s, limit)
    ensures SettledBehind(Remaining(s), limit) && Weight(s) <= 1 + Weight(Remaining(s))
    ensures !RespectedBehind(s, limit) && !Glued(s) ==> !RespectedBehind(Remaining(s), limit) && !Glued(Remaining(s))
  {
    if TakesSpace(s) {
      var after := AfterFlag(s);
      BehindBareFlag(s);
      assert Bare(s) && OrdinarySettled(after, limit, true) && SettledBehind(after, limit);
      DigitsSkipped(after, DigitRun(after));
      OptionsSkipDigits(after, DigitRun(after));
      OptionsInOthers(after, true);
      NumberOrGlued(after);
      if !RespectedBehind(s, limit) && !Glued(s) {
        assert !Respected(after, limit, true) && !RespectedBehind(after, limit);
      }
    } else {
      BehindFlag(s);
    }
  }

  lemma WeightOfFlag(s: string, limit: nat)
    requires 1 <= limit && FlagAt(s) != NoFlag
    ensures Weight(Clamp(s, limit)) == 1 + Weight(Clamp(Remaining(s), limit))
  {
    RewrittenFlag(s, limit);
    TakenText(Clamp(s, limit));
    OthersBehindFlag(s, limit);
  }

  lemma {:induction false} NeverLighter(s: string, limit: nat)
    requires 1 <= limit < INT64_LIMIT && SettledBehind(s, limit)
    ensures Weight(Clamp(s, limit)) >= Weight(s)
    ensures !RespectedBehind(s, limit) && !Glued(s) ==> Weight(Clamp(s, limit)) > Weight(s)
    decreases |s|
  {
    if s != "" {
      if FlagAt(s) != NoFlag {
        WeightBehindFlag(s, limit);
        WeightOfFlag(s, limit);
        NeverLighter(Remaining(s), limit);
      } else {
        StillNoFlag(s, limit);
        assert Clamp(s, limit)[1..] == Clamp(s[1..], limit);
        NeverLighter(s[1..], limit);
        if s[0] == ' ' {
          HeavierWords(s[1..], limit);
        }
      }
    }
  }

  // From the first word on: an option that got something glued to it has become an
  // ordinary word.
  lemma HeavierWords(s: string, limit: nat)
    requires 1 <= limit < INT64_LIMIT && OrdinarySettled(s, limit, false)
    requires Weight(Clamp(s, limit)) >= Weight(s)
    requires !RespectedBehind(s, limit) && !Glued(s) ==> Weight(Clamp(s, limit)) > Weight(s)
    ensures OptionsIn(OtherWords(Clamp(s, limit), false)) >= OptionsIn(OtherWords(s, false))
    ensures !Respected(s, limit, false) ==> OptionsIn(OtherWords(Clamp(s, limit), false)) > OptionsIn(OtherWords(s, false))
  {
    var r := Clamp(s, limit);
    OptionsInOthers(s, false);
    OptionsInOthers(r, false);
    HeadKept(s, limit);
    if JobOption(Word(s)) {
      OneOption(s);
      OptionKept(s, limit);
      FlagKept(s, limit);
      FlagOfWord(r);
      if JobOption(Word(r)) { OneOption(r); }
    } else if Word(s) != "" {
      SettledCopied(s, limit);
      SettledNotBare(s, limit);
      OptionsOfWord(s);
      OptionsOfWord(r);
    }
  }

  lemma OneOption(s: string)
    requires JobOption(Word(s))
    ensures Options(s) == 1 && FlagAt(s) != NoFlag
  {
    FlagOfWord(s);
    OptionsOfWord(s);
  }

  // ---- Words that need rewriting are nowhere in the result ----

  lemma {:induction false} SettledOfWord(s: string, limit: nat)
    ensures Settled(Word(s), limit) == Settled(s, limit)
    decreases |s|
  {
    if s != "" && s[0] != ' ' {
      var w := Word(s);
      FlagOfWord(s);
      if FlagAt(s) == NoFlag {
        SettledOfWord(s[1..], limit);
        assert w[1..] == Word(s[1..]);
      } else {
        AttachedOfWord(s);
        if Attached(s) {
          TakenText(s);
          BehindFlag(s);
          var number := AfterFlag(s)[..DigitRun(AfterFlag(s))];
          assert w == Spelling(FlagAt(s)) + number + Word(Remaining(s));
          WordIs(Remaining(s));
          SpelledFlag(FlagAt(s), number, Word(Remaining(s)));
          assert AfterFlag(w)[..|number|] == number;
          SettledOfWord(Remaining(s), limit);
        }
      }
    }
  }

  lemma AttachedOfWord(s: string)
    requires FlagAt(s) != NoFlag && FlagAt(Word(s)) == FlagAt(s)
    ensures Attached(Word(s)) == Attached(s)
  {
    WordIs(s);
    assert forall i :: 0 <= i < |Word(s)| ==> Word(s)[i] == s[i];
    if FlagAt(s) == LongFlag {
      var j := s[2..];
      assert j[0] == s[2] && j[1] == s[3] && j[2] == s[4] && j[3] == s[5];
    }
  }

  lemma {:induction false} SettledAllWords(s: string, limit: nat, taken: bool)
    requires SettledAll(s, limit)
    ensures forall w :: w in OtherWords(s, taken) ==> Settled(w, limit)
    decreases |s|
  {
    SettledOfWord(s, limit);
    if Behind(s).Some? {
      SettledAllWords(Behind(s).value, limit, Bare(s));
    }
  }

  lemma {:induction false} UnsettledWord(s: string, limit: nat, taken: bool) returns (w: string)
    requires !OrdinarySettled(s, limit, taken)
    ensures w in OtherWords(s, taken) && !Settled(w, limit)
    decreases |s|
  {
    if Ordinary(Word(s), taken) && !Settled(s, limit) {
      SettledOfWord(s, limit);
      w := Word(s);
    } else {
      w := UnsettledWord(Behind(s).value, limit, Bare(s));
    }
  }

  // ---- Main result ----

  // The words that are neither job options nor their numbers come out as they went in,
  // byte for byte, in order and with no other word among them, if and only if none of
  // them holds an option that needs rewriting and nothing but a number stands directly
  // behind a bare option.
  lemma OtherWordsCopiedIff(s: string, limit: nat)
    requires 1 <= limit < INT64_LIMIT
    ensures OtherWords(Clamp(s, limit), false) == OtherWords(s, false) <==> Respected(s, limit, false)
  {
    if Respected(s, limit, false) {
      FirstWordKept(s, limit);
      CopiedBehind(s, limit);
    } else if OrdinarySettled(s, limit, false) {
      NeverLighter(s, limit);
      HeavierWords(s, limit);
    } else {
      var w := UnsettledWord(s, limit, false);
      ResultSettled(s, limit);
      SettledAllWords(Clamp(s, limit), limit, false);
      assert w !in OtherWords(Clamp(s, limit), false);
    }
  }

  // A word with `-j` and a number inside it is rewritten: options are looked for at
  // every position, not only at the start of a word.
  lemma OptionInsideWordRewritten(head: char, digits: string, limit: nat)
    requires head != '-' && Digits(digits)
    ensures Clamp([head] + "-j" + digits, limit) == [head] + "-j" + ClampNumber(digits, limit)
  {
    var s := [head] + "-j" + digits;
    assert s[1..] == "-j" + digits;
    SpelledShort(digits);
    DigitRunOf(digits, "");
    assert digits + "" == digits && digits[..|digits|] == digits;
    assert Clamp(s[1..], limit) == "-j" + ClampNumber(digits, limit);
  }
}
