/** parse_range() of examples/common/ota_server.py: one byte range, after sections 14.1.2 and 14.2
    of RFC 9110. */
module Ranges {
  import opened Decimal

  /** What parse_range() answers: a header to ignore, a slice, or RangeNotSatisfiable. */
  datatype Bounds = Ignored | Slice(first: nat, last: nat) | NotSatisfiable

  /** str.isspace() on ASCII */
  predicate IsSpace(c: char) {
    c == ' ' || '\t' <= c <= '\r' || 28 as char <= c <= 31 as char
  }

  function StripLeft(s: string): string {
    if s != [] && IsSpace(s[0]) then StripLeft(s[1..]) else s
  }

  function StripRight(s: string): string {
    if s != [] && IsSpace(s[|s| - 1]) then StripRight(s[..|s| - 1]) else s
  }

  function Strip(s: string): string {
    StripRight(StripLeft(s))
  }

  /** Nothing but ASCII white space. */
  predicate Blank(s: string) {
    forall i :: 0 <= i < |s| ==> s[i] in {' ', '\t', '\n', 11 as char, 12 as char, '\r',
                                          28 as char, 29 as char, 30 as char, 31 as char}
  }

  lemma {:induction false} StripLeftExact(s: string) returns (before: string)
    ensures s == before + StripLeft(s) && Blank(before)
    ensures StripLeft(s) != "" ==> !Blank(StripLeft(s)[..1])
  {
    if s != [] && IsSpace(s[0]) {
      var rest := StripLeftExact(s[1..]);
      before := [s[0]] + rest;
      assert s == [s[0]] + s[1..];
    } else {
      before := "";
      if s != [] {
        assert s[..1][0] == s[0];
      }
    }
  }

  lemma {:induction false} StripRightExact(s: string) returns (after: string)
    ensures s == StripRight(s) + after && Blank(after)
    ensures StripRight(s) != "" ==> !Blank(StripRight(s)[|StripRight(s)| - 1..])
    ensures StripRight(s) != "" ==> StripRight(s)[0] == s[0]
  {
    if s != [] && IsSpace(s[|s| - 1]) {
      var rest := StripRightExact(s[..|s| - 1]);
      after := rest + [s[|s| - 1]];
      assert s == s[..|s| - 1] + [s[|s| - 1]];
    } else {
      after := "";
      if s != [] {
        assert s[|s| - 1..][0] == s[|s| - 1];
      }
    }
  }

  /** strip() removes exactly the white space at both ends. */
  lemma StripExact(s: string) returns (before: string, after: string)
    ensures s == before + Strip(s) + after && Blank(before) && Blank(after)
    ensures var t := Strip(s); t != "" ==> !Blank(t[..1]) && !Blank(t[|t| - 1..])
  {
    before := StripLeftExact(s);
    after := StripRightExact(StripLeft(s));
    var t := Strip(s);
    if t != "" {
      assert t[..1] == StripLeft(s)[..1];
    }
  }

  /** How many digits a string starts with. */
  function LeadingDigits(s: string): (k: nat)
    ensures k <= |s| && AllDigits(s[..k]) && (k < |s| ==> !IsDigit(s[k]))
  {
    if s == [] || !IsDigit(s[0]) then 0
    else
      var k := LeadingDigits(s[1..]);
      assert s[..k + 1] == [s[0]] + s[1..][..k];
      k + 1
  }

  /** Digits followed by something else are all found, and no more. */
  lemma {:induction false} DigitsThen(a: string, tail: string)
    requires AllDigits(a) && tail != "" && !IsDigit(tail[0])
    ensures LeadingDigits(a + tail) == |a|
  {
    if a == "" {
      assert a + tail == tail;
    } else {
      DigitsThen(a[1..], tail);
      assert (a + tail)[1..] == a[1..] + tail;
    }
  }

  const PREFIX: string := "bytes="

  /** The groups of a full match of bytes=(\d*)-(\d*). */
  datatype Groups = NoMatch | Match(first: string, last: string)

  function FullMatch(h: string): (g: Groups)
    ensures g.Match? ==> AllDigits(g.first) && AllDigits(g.last)
  {
    if |h| < |PREFIX| || h[..|PREFIX|] != PREFIX then NoMatch
    else
      var rest := h[|PREFIX|..];
      var k := LeadingDigits(rest);
      if k < |rest| && rest[k] == '-' && AllDigits(rest[k + 1..]) then Match(rest[..k], rest[k + 1..])
      else NoMatch
  }

  function ParseRange(header: string, size: nat): Bounds {
    match FullMatch(Strip(header))
    case NoMatch => Ignored
    case Match(first, last) =>
      if first == last == "" then Ignored
      else if first == "" then
        if Value(last) == 0 || size == 0 then NotSatisfiable
        else Slice(if size >= Value(last) then size - Value(last) else 0, size - 1)
      else if last != "" && Value(first) > Value(last) then Ignored
      else if Value(first) >= size then NotSatisfiable
      else Slice(Value(first), if last == "" || Value(last) > size - 1 then size - 1 else Value(last))
  }

  // --- What the header means ---

  /** h is spelled bytes=first-last. */
  predicate Spelled(h: string, first: string, last: string) {
    AllDigits(first) && AllDigits(last) && h == "bytes=" + first + "-" + last
  }

  /** The matcher finds the spelling, and there is only one. */
  lemma MatchIsSpelling(h: string, first: string, last: string)
    ensures FullMatch(h) == Match(first, last) <==> Spelled(h, first, last)
  {
    if Spelled(h, first, last) {
      var rest := h[|PREFIX|..];
      assert h[..|PREFIX|] == PREFIX;
      assert rest == first + ("-" + last);
      DigitsThen(first, "-" + last);
      assert rest[..|first|] == first && rest[|first| + 1..] == last;
    }
    if FullMatch(h) == Match(first, last) {
      assert h == PREFIX + h[|PREFIX|..];
      var rest := h[|PREFIX|..];
      assert rest == rest[..|first|] + [rest[|first|]] + rest[|first| + 1..];
    }
  }

  /** A range says something: it has a bound, and not two in the wrong order. */
  predicate WellFormed(first: string, last: string)
    requires AllDigits(first) && AllDigits(last)
  {
    && !(first == "" && last == "")
    && (first != "" && last != "" ==> Value(first) <= Value(last))
  }

  /** Position p of a file is among those the range asks for. */
  predicate Requested(first: string, last: string, size: nat, p: nat)
    requires AllDigits(first) && AllDigits(last)
  {
    if first == "" then p + Value(last) >= size
    else Value(first) <= p && (last == "" || p <= Value(last))
  }

  ghost predicate SelectsNone(first: string, last: string, size: nat)
    requires AllDigits(first) && AllDigits(last)
  {
    forall p: nat :: p < size ==> !Requested(first, last, size, p)
  }

  /** A header that spells no range, says nothing, or runs backwards is ignored. */
  lemma IgnoredExactly(header: string, size: nat)
    ensures ParseRange(header, size) == Ignored <==>
              !exists first, last :: Spelled(Strip(header), first, last) && WellFormed(first, last)
  {
    var h := Strip(header);
    match FullMatch(h)
    case NoMatch =>
      forall first, last ensures !Spelled(h, first, last) {
        MatchIsSpelling(h, first, last);
      }
    case Match(a, b) =>
      MatchIsSpelling(h, a, b);
      forall first, last | Spelled(h, first, last) ensures first == a && last == b {
        MatchIsSpelling(h, first, last);
      }
  }

  /** On a well-formed range the answer is exact: not satisfiable if and only if it selects
      nothing, and otherwise the bounds of precisely the positions it selects. */
  lemma AnsweredExactly(header: string, size: nat, first: string, last: string)
    requires Spelled(Strip(header), first, last) && WellFormed(first, last)
    ensures ParseRange(header, size) == NotSatisfiable <==> SelectsNone(first, last, size)
    ensures ParseRange(header, size).Slice? <==> !SelectsNone(first, last, size)
    ensures var r := ParseRange(header, size);
            r.Slice? ==> r.first <= r.last < size
                         && forall p: nat :: p < size ==> (r.first <= p <= r.last <==> Requested(first, last, size, p))
  {
    MatchIsSpelling(Strip(header), first, last);
    var r := ParseRange(header, size);
    if r.Slice? {
      assert Requested(first, last, size, r.first);
    }
  }

  /** Satisfiable in the sense of section 14.1.2 of RFC 9110: a first position inside the file,
      or a suffix of non-zero length. */
  predicate Satisfiable(first: string, last: string, size: nat)
    requires AllDigits(first) && AllDigits(last)
  {
    if first == "" then Value(last) != 0 else Value(first) < size
  }

  /** The code answers 416 exactly to what the standard calls unsatisfiable, and to a non-empty
      suffix of an empty file besides. */
  lemma AgainstTheStandard(header: string, size: nat, first: string, last: string)
    requires Spelled(Strip(header), first, last) && WellFormed(first, last)
    ensures ParseRange(header, size) == NotSatisfiable <==>
              !Satisfiable(first, last, size) || (first == "" && size == 0)
  {
    MatchIsSpelling(Strip(header), first, last);
  }

  // --- Printing and parsing ---

  lemma StripKeeps(s: string)
    requires s != [] && !IsSpace(s[0]) && !IsSpace(s[|s| - 1])
    ensures Strip(s) == s
  {
  }

  function Closed(a: int, b: int): string {
    PREFIX + PrintInt(a) + "-" + PrintInt(b)
  }

  function Open(a: nat): string {
    PREFIX + Print(a) + "-"
  }

  lemma SpelledClosed(a: nat, b: nat)
    ensures Spelled(Strip(Closed(a, b)), Print(a), Print(b))
    ensures Value(Print(a)) == a && Value(Print(b)) == b && Print(a) != "" && Print(b) != ""
  {
    ValueOfPrint(a);
    ValueOfPrint(b);
    var s := Closed(a, b);
    assert s[0] == 'b';
    assert s[|s| - 1] == Print(b)[|Print(b)| - 1];
    StripKeeps(s);
  }

  lemma SpelledOpen(a: nat)
    ensures Spelled(Strip(Open(a)), Print(a), "") && Value(Print(a)) == a && Print(a) != ""
  {
    ValueOfPrint(a);
    var s := Open(a);
    assert s[0] == 'b' && s[|s| - 1] == '-';
    StripKeeps(s);
    assert s == PREFIX + Print(a) + "-" + "";
  }

  /** What the client prints, the server reads: bytes=a-b is that slice, cut at the end of the
      file; bytes=a- is the rest of it; a position past the end is not satisfiable; and bounds in
      the wrong order are ignored. */
  lemma PrintedRangesParse(a: nat, b: nat, size: nat)
    ensures ParseRange(Closed(a, b), size)
            == if a > b then Ignored else if a >= size then NotSatisfiable
               else Slice(a, if b < size then b else size - 1)
    ensures ParseRange(Open(a), size) == if a >= size then NotSatisfiable else Slice(a, size - 1)
  {
    SpelledClosed(a, b);
    MatchIsSpelling(Strip(Closed(a, b)), Print(a), Print(b));
    SpelledOpen(a);
    MatchIsSpelling(Strip(Open(a)), Print(a), "");
  }

  /** A negative number never parses as a bound. */
  lemma NegativeIsIgnored(a: nat, b: int, size: nat)
    requires b < 0
    ensures ParseRange(Closed(a, b), size) == Ignored
  {
    ValueOfPrint(a);
    ValueOfPrint(-b);
    var s := Closed(a, b);
    assert s[0] == 'b';
    assert s[|s| - 1] == Print(-b)[|Print(-b)| - 1];
    StripKeeps(s);
    var dash := |PREFIX| + |Print(a)|;
    assert s[dash] == '-' && s[dash + 1] == '-';
    match FullMatch(s)
    case NoMatch =>
    case Match(first, last) =>
      MatchIsSpelling(s, first, last);
      OneDash(s, first, last);
  }

  lemma OneDash(h: string, first: string, last: string)
    ensures Spelled(h, first, last) ==>
              forall i :: 0 <= i < |h| && h[i] == '-' ==> i == |PREFIX| + |first|
  {
    if Spelled(h, first, last) {
      forall i | 0 <= i < |h| && i != |PREFIX| + |first| ensures h[i] != '-' {
        if i < |PREFIX| {
          assert h[i] == PREFIX[i];
        } else if i < |PREFIX| + |first| {
          assert h[i] == first[i - |PREFIX|];
        } else {
          assert h[i] == last[i - |PREFIX| - |first| - 1];
        }
      }
    }
  }
}
