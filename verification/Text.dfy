/**
 * String primitives the source takes from its standard library: splitting on and
 * joining with a separator, replacing one character, and decimal spelling.
 */
module Text {

  datatype Option<+T> = None | Some(value: T)

  // strings.Split with a one-character separator: always at least one piece.
  function Split(s: string, sep: char): (pieces: seq<string>)
    ensures |pieces| >= 1
  {
    if s == [] then [""]
    else
      var rest := Split(s[1..], sep);
      if s[0] == sep then [""] + rest
      else [[s[0]] + rest[0]] + rest[1..]
  }

  function Join(pieces: seq<string>, sep: char): string {
    if pieces == [] then ""
    else if |pieces| == 1 then pieces[0]
    else pieces[0] + [sep] + Join(pieces[1..], sep)
  }

  lemma {:induction false} JoinOfSplit(s: string, sep: char)
    ensures Join(Split(s, sep), sep) == s
  {
    if s != [] {
      JoinOfSplit(s[1..], sep);
      var rest := Split(s[1..], sep);
      var whole := Split(s, sep);
      if s[0] == sep {
        assert whole[1..] == rest;
      } else if |rest| > 1 {
        assert whole[1..] == rest[1..];
        assert Join(whole, sep) == [s[0]] + (rest[0] + [sep] + Join(rest[1..], sep));
      }
    }
  }

  lemma {:induction false} SplitPiecesHaveNoSeparator(s: string, sep: char)
    ensures forall piece :: piece in Split(s, sep) ==> sep !in piece
  {
    if s != [] {
      SplitPiecesHaveNoSeparator(s[1..], sep);
      var rest := Split(s[1..], sep);
      assert rest[0] in rest;
      assert forall piece :: piece in rest[1..] ==> piece in rest;
    }
  }

  lemma {:induction false} SplitOfPrefix(piece: string, tail: string, sep: char)
    requires sep !in piece
    ensures var rest := Split(tail, sep);
            Split(piece + tail, sep) == [piece + rest[0]] + rest[1..]
  {
    if piece == [] {
      assert piece + tail == tail;
      assert piece + Split(tail, sep)[0] == Split(tail, sep)[0];
    } else {
      SplitOfPrefix(piece[1..], tail, sep);
      assert (piece + tail)[1..] == piece[1..] + tail;
      var rest := Split(tail, sep);
      assert Split(piece[1..] + tail, sep)[1..] == rest[1..];
      assert [piece[0]] + (piece[1..] + rest[0]) == piece + rest[0];
    }
  }

  lemma {:induction false} SplitOfJoin(pieces: seq<string>, sep: char)
    requires |pieces| >= 1
    requires forall piece :: piece in pieces ==> sep !in piece
    ensures Split(Join(pieces, sep), sep) == pieces
  {
    if |pieces| == 1 {
      SplitOfPrefix(pieces[0], "", sep);
      assert pieces[0] + "" == pieces[0];
      assert pieces == [pieces[0]];
    } else {
      var tail := [sep] + Join(pieces[1..], sep);
      SplitOfJoin(pieces[1..], sep);
      assert tail[1..] == Join(pieces[1..], sep);
      SplitOfPrefix(pieces[0], tail, sep);
      assert pieces[0] + [sep] + Join(pieces[1..], sep) == pieces[0] + tail;
      assert Split(tail, sep)[1..] == pieces[1..];
      assert pieces[0] + "" == pieces[0];
      assert pieces == [pieces[0]] + pieces[1..];
    }
  }

  // strings.ReplaceAll of one character by a string.
  function ReplaceAll(s: string, c: char, sub: string): string {
    if s == [] then "" else (if s[0] == c then sub else [s[0]]) + ReplaceAll(s[1..], c, sub)
  }

  // Whether `form` occurs in `s` at position `at`.
  predicate OccursAt(s: string, form: string, at: int) {
    0 <= at <= |s| - |form| && s[at..at + |form|] == form
  }

  // strings.Index(s[from:], form) + from; None is the -1 of the source.
  function IndexFrom(s: string, form: string, from: nat): (r: Option<nat>)
    requires from <= |s|
    ensures r.Some? ==> from <= r.value && OccursAt(s, form, r.value)
    ensures r.Some? ==> forall p :: from <= p < r.value ==> !OccursAt(s, form, p)
    ensures r.None? ==> forall p :: from <= p ==> !OccursAt(s, form, p)
    decreases |s| - from
  {
    if OccursAt(s, form, from) then Some(from)
    else if from == |s| then None
    else IndexFrom(s, form, from + 1)
  }

  predicate IsDigit(c: char) { '0' <= c <= '9' }

  function DigitChar(d: nat): char
    requires d < 10
  {
    ('0' as int + d) as char
  }

  // The value of a string of decimal digits, most significant first.
  function DecimalValue(s: string): nat
    requires forall i :: 0 <= i < |s| ==> IsDigit(s[i])
  {
    if s == [] then 0
    else
      assert IsDigit(s[|s| - 1]);
      DecimalValue(s[..|s| - 1]) * 10 + (s[|s| - 1] as int - '0' as int)
  }

  // The canonical decimal spelling.
  function Decimal(n: nat): (s: string)
    ensures |s| >= 1
    ensures forall i :: 0 <= i < |s| ==> IsDigit(s[i])
  {
    if n < 10 then [DigitChar(n)] else Decimal(n / 10) + [DigitChar(n % 10)]
  }

  lemma {:induction false} DecimalRoundTrip(n: nat)
    ensures DecimalValue(Decimal(n)) == n
  {
    if n >= 10 {
      DecimalRoundTrip(n / 10);
      assert Decimal(n)[..|Decimal(n)| - 1] == Decimal(n / 10);
    }
  }

  // What comes before and after the first occurrence of c.
  function Cut(s: string, c: char): (string, Option<string>) {
    if s == "" then ("", None)
    else if s[0] == c then ("", Some(s[1..]))
    else
      var (head, tail) := Cut(s[1..], c);
      ([s[0]] + head, tail)
  }

  lemma {:induction false} CutParts(s: string, c: char)
    ensures var (head, tail) := Cut(s, c);
            c !in head && s == if tail.None? then head else head + [c] + tail.value
  {
    if s != "" && s[0] != c {
      CutParts(s[1..], c);
      var (head, tail) := Cut(s[1..], c);
      assert s == [s[0]] + s[1..];
      if tail.Some? {
        assert [s[0]] + (head + [c] + tail.value) == [s[0]] + head + [c] + tail.value;
      }
    }
  }

  lemma {:induction false} CutOf(head: string, c: char, tail: string)
    requires c !in head
    ensures Cut(head, c) == (head, None)
    ensures Cut(head + [c] + tail, c) == (head, Some(tail))
  {
    var s := head + [c] + tail;
    if head != "" {
      assert head == [head[0]] + head[1..];
      CutOf(head[1..], c, tail);
      assert s[1..] == head[1..] + [c] + tail;
    } else {
      assert s[1..] == tail;
    }
  }

  // unicode.IsSpace
  predicate IsSpace(c: char) {
    || '\t' <= c <= '\r' || c == ' ' || c == '\U{85}' || c == '\U{A0}' || c == '\U{1680}'
    || '\U{2000}' <= c <= '\U{200A}' || c == '\U{2028}' || c == '\U{2029}' || c == '\U{202F}'
    || c == '\U{205F}' || c == '\U{3000}'
  }

  function TrimLeft(s: string): string {
    if s != "" && IsSpace(s[0]) then TrimLeft(s[1..]) else s
  }

  function TrimRight(s: string): string {
    if s != "" && IsSpace(s[|s| - 1]) then TrimRight(s[..|s| - 1]) else s
  }

  function TrimSpace(s: string): string {
    TrimRight(TrimLeft(s))
  }

  lemma {:induction false} TrimWithin(s: string)
    ensures forall c :: c in TrimLeft(s) ==> c in s
    ensures forall c :: c in TrimRight(s) ==> c in s
  {
    if s != "" {
      TrimWithin(s[1..]);
      TrimWithin(s[..|s| - 1]);
    }
  }

  lemma {:induction false} TrimKeeps(s: string, c: char)
    requires c in s && !IsSpace(c)
    ensures c in TrimLeft(s) && c in TrimRight(s)
  {
    if IsSpace(s[0]) {
      assert s == [s[0]] + s[1..];
      TrimKeeps(s[1..], c);
    }
    var last := |s| - 1;
    if IsSpace(s[last]) {
      assert s == s[..last] + [s[last]];
      TrimKeeps(s[..last], c);
    }
  }

  // What trimming leaves alone.
  lemma TrimFixedIff(s: string)
    requires s != ""
    ensures TrimSpace(s) == s <==> !IsSpace(s[0]) && !IsSpace(s[|s| - 1])
  {
    TrimShorter(s);
    TrimShorter(TrimLeft(s));
  }

  lemma {:induction false} TrimShorter(s: string)
    ensures |TrimLeft(s)| <= |s| && |TrimRight(s)| <= |s|
    ensures s != "" && IsSpace(s[0]) ==> |TrimLeft(s)| < |s|
    ensures s != "" && IsSpace(s[|s| - 1]) ==> |TrimRight(s)| < |s|
  {
    if s != "" {
      TrimShorter(s[1..]);
      TrimShorter(s[..|s| - 1]);
    }
  }
}
