/** The ids of branch pipelines: the partitioner prints them, the job list parses
    them back with the pattern  ^(.+?)__branch_(\d+)(?:_(\d+))?$  . */
module BranchIds {

  const MARK: string := "__branch_"

  // ----- printing -----

  function Decimal(k: nat): (s: string)
    ensures |s| > 0 && forall c | c in s :: IsDigit(c)
  {
    if k < 10 then [DigitChar(k)] else Decimal(k / 10) + [DigitChar(k % 10)]
  }

  function DigitChar(d: nat): (c: char)
    requires d < 10
    ensures IsDigit(c) && DigitValue(c) == d
  {
    '0' + d as char
  }

  function BranchId(parent: string, index: nat): string {
    parent + MARK + Decimal(index)
  }

  /** Digits as they are written, the last one for the units. */
  lemma DecimalSpelling(k: nat)
    ensures k < 10 ==> Decimal(k) == ["0123456789"[k]]
    ensures k >= 10 ==> Decimal(k) == Decimal(k / 10) + ["0123456789"[k % 10]]
  {
    DigitSpelling(k % 10);
  }

  lemma DigitSpelling(d: nat)
    requires d < 10
    ensures DigitChar(d) == "0123456789"[d]
  {
    assert d == 0 || d == 1 || d == 2 || d == 3 || d == 4 || d == 5 || d == 6 || d == 7 || d == 8 || d == 9;
  }

  // ----- parsing -----

  predicate IsDigit(c: char) {
    '0' <= c <= '9'
  }

  function DigitValue(c: char): nat
    requires IsDigit(c)
  {
    (c - '0') as nat
  }

  function ToNat(s: string): nat
    requires forall c | c in s :: IsDigit(c)
  {
    if s == [] then 0 else ToNat(s[..|s|-1]) * 10 + DigitValue(s[|s|-1])
  }

  /** The length of the run of digits `s` starts with. */
  function DigitRun(s: string): (n: nat)
    ensures n <= |s| && (forall c | c in s[..n] :: IsDigit(c)) && (n < |s| ==> !IsDigit(s[n]))
  {
    if s == [] || !IsDigit(s[0]) then 0
    else
      var n := DigitRun(s[1..]);
      assert s[..n+1] == [s[0]] + s[1..][..n];
      n + 1
  }

  datatype Tail = NoTail | Tail(index: nat)

  /** `$` also matches before a newline at the very end. */
  function BeforeEnd(s: string): string {
    if |s| > 0 && s[|s|-1] == '\n' then s[..|s|-1] else s
  }

  /** What may follow the first number: nothing, or an underscore and a number. */
  predicate SecondNumber(s: string) {
    s == [] || (s[0] == '_' && |s| > 1 && DigitRun(s[1..]) == |s| - 1)
  }

  /** The part of the pattern after the parent id, matched against all of `rest`. */
  function MatchTail(rest: string): Tail {
    if MARK <= rest then
      var body := BeforeEnd(rest[|MARK|..]);
      var n := DigitRun(body);
      if n > 0 && SecondNumber(body[n..]) then Tail(ToNat(body[..n])) else NoTail
    else
      NoTail
  }

  datatype BranchInfo = NotABranch | Branch(parent: string, index: nat)

  function ParseBranchInfo(id: string): BranchInfo {
    ParseFrom(id, 1)
  }

  /** The non-greedy group takes the shortest parent, of at least `n` characters,
      that lets the rest match; `.` stops at a newline. */
  function ParseFrom(id: string, n: nat): BranchInfo
    requires n > 0
    decreases |id| - n
  {
    if n > |id| || id[n-1] == '\n' then NotABranch
    else if MatchTail(id[n..]).Tail? then Branch(id[..n], MatchTail(id[n..]).index)
    else ParseFrom(id, n + 1)
  }

  // ----- what the matcher matches -----

  ghost predicate AllDigits(s: string) {
    |s| > 0 && forall c | c in s :: '0' <= c <= '9'
  }

  /** `rest` spelt out as the pattern has it: the mark, a number, perhaps an
      underscore and another number, perhaps a final newline. */
  ghost predicate Spells(rest: string, first: string, second: string, end: string) {
    && AllDigits(first)
    && (second == [] || (second[0] == '_' && AllDigits(second[1..])))
    && end in {"", "\n"}
    && rest == "__branch_" + first + second + end
  }

  lemma {:induction false} DigitRunOf(digits: string, more: string)
    requires forall c | c in digits :: IsDigit(c)
    requires more == [] || !IsDigit(more[0])
    ensures DigitRun(digits + more) == |digits|
  {
    if digits != [] {
      assert digits[0] in digits;
      assert (digits + more)[1..] == digits[1..] + more;
      DigitRunOf(digits[1..], more);
    } else {
      assert digits + more == more;
    }
  }

  /** The matcher accepts exactly what the pattern spells, and reads the first number. */
  lemma MatchTailSpelling(rest: string)
    ensures MatchTail(rest).Tail? <==> exists first, second, end :: Spells(rest, first, second, end)
    ensures forall first, second, end | Spells(rest, first, second, end) :: MatchTail(rest) == Tail(ToNat(first))
  {
    forall first, second, end | Spells(rest, first, second, end) ensures MatchTail(rest) == Tail(ToNat(first)) {
      SpelledMatches(rest, first, second, end);
    }
    if MatchTail(rest).Tail? {
      MatchedSpells(rest);
    }
  }

  lemma MatchedSpells(rest: string)
    requires MatchTail(rest).Tail?
    ensures exists first, second, end :: Spells(rest, first, second, end)
  {
    var all := rest[|MARK|..];
    EndIsNewline(all);
    var body, end := BeforeEnd(all), all[|BeforeEnd(all)|..];
    var first, second := body[..DigitRun(body)], body[DigitRun(body)..];
    SecondIsNumber(second);
    JoinParts(rest, all, body, first, second, end);
    assert Spells(rest, first, second, end);
  }

  lemma JoinParts(rest: string, all: string, body: string, first: string, second: string, end: string)
    requires MARK <= rest && all == rest[|MARK|..] && all == body + end && body == first + second
    ensures rest == MARK + first + second + end
  {
    assert rest == MARK + all;
  }

  lemma EndIsNewline(s: string)
    ensures BeforeEnd(s) <= s && s[|BeforeEnd(s)|..] in {"", "\n"} && s == BeforeEnd(s) + s[|BeforeEnd(s)|..]
  {
    if BeforeEnd(s) == s {
      assert s[|s|..] == "";
    } else {
      assert s[|s|-1..] == "\n";
    }
  }

  lemma SecondIsNumber(s: string)
    requires SecondNumber(s)
    ensures s == [] || (s[0] == '_' && AllDigits(s[1..]))
  {
    if s != [] {
      assert s[1..][..|s|-1] == s[1..];
    }
  }

  lemma SpelledMatches(rest: string, first: string, second: string, end: string)
    requires Spells(rest, first, second, end)
    ensures MatchTail(rest) == Tail(ToNat(first))
  {
    var body := first + second;
    AfterMark(rest, first, second, end);
    BodyBeforeEnd(first, second, end);
    DigitRunOf(first, second);
    assert body[..|first|] == first && body[|first|..] == second;
    SecondMatches(second);
  }

  lemma AfterMark(rest: string, first: string, second: string, end: string)
    requires rest == MARK + first + second + end
    ensures MARK <= rest && rest[|MARK|..] == first + second + end
  {
    assert rest == MARK + (first + second + end);
  }

  lemma SecondMatches(second: string)
    requires second == [] || (second[0] == '_' && AllDigits(second[1..]))
    ensures SecondNumber(second)
  {
    if second != [] {
      AllDigitsRun(second[1..]);
    }
  }

  lemma BodyBeforeEnd(first: string, second: string, end: string)
    requires AllDigits(first) && (second == [] || (second[0] == '_' && AllDigits(second[1..]))) && end in {"", "\n"}
    ensures BeforeEnd(first + second + end) == first + second
  {
    var body := first + second;
    if second == [] {
      assert body == first && first[|first|-1] in first;
    } else {
      assert body[|body|-1] == second[1..][|second|-2] && second[1..][|second|-2] in second[1..];
    }
    assert (body + end)[..|body|] == body;
    assert end == "" ==> body + end == body;
  }

  /** Whether a parent of `n` characters lets all of `id` match. */
  ghost predicate Splits(id: string, n: nat) {
    0 < n <= |id| && '\n' !in id[..n] && MatchTail(id[n..]).Tail?
  }

  /** Parsing finds the shortest parent, if there is one at all. */
  lemma ParseIsShortest(id: string)
    ensures match ParseBranchInfo(id)
            case Branch(p, k) =>
              p <= id && Splits(id, |p|) && MatchTail(id[|p|..]) == Tail(k) && forall m | 0 < m < |p| :: !Splits(id, m)
            case NotABranch => forall m :: !Splits(id, m)
  {
    var n := FirstSplit(id, 1);
    if n <= |id| && Splits(id, n) {
      assert id[..n] <= id && |id[..n]| == n;
    }
  }

  /** Where the scan from `n` stops: at the first length that splits `id`, or beyond
      the last one that could. */
  lemma {:induction false} FirstSplit(id: string, n: nat) returns (stop: nat)
    requires 0 < n <= |id| + 1 && '\n' !in id[..n-1]
    ensures n <= stop && forall m | n <= m < stop :: !Splits(id, m)
    ensures if ParseFrom(id, n).Branch?
            then Splits(id, stop) && ParseFrom(id, n) == Branch(id[..stop], MatchTail(id[stop..]).index)
            else forall m | stop <= m :: !Splits(id, m)
    decreases |id| - n
  {
    stop := n;
    if n <= |id| && id[n-1] == '\n' {
      NewlineStays(id, n - 1);
    } else if n <= |id| {
      SplitsHere(id, n);
      if !Splits(id, n) {
        stop := FirstSplit(id, n + 1);
      }
    }
  }

  lemma SplitsHere(id: string, n: nat)
    requires 0 < n <= |id| && '\n' !in id[..n-1] && id[n-1] != '\n'
    ensures '\n' !in id[..n] && (Splits(id, n) <==> MatchTail(id[n..]).Tail?)
  {
    assert id[..n] == id[..n-1] + [id[n-1]];
  }

  lemma NewlineStays(id: string, k: nat)
    requires k < |id| && id[k] == '\n'
    ensures forall m | k < m :: !Splits(id, m)
  {
    assert forall m | k < m <= |id| :: id[..m][k] == '\n';
  }

  // ----- round trip -----

  lemma {:induction false} ToNatDecimal(k: nat)
    ensures ToNat(Decimal(k)) == k
  {
    if k >= 10 {
      ToNatDecimal(k / 10);
      assert Decimal(k)[..|Decimal(k)|-1] == Decimal(k / 10);
    }
  }

  lemma {:induction false} AllDigitsRun(s: string)
    requires forall c | c in s :: IsDigit(c)
    ensures DigitRun(s) == |s|
  {
    assert forall i | 0 <= i < |s| :: s[i] in s;
  }

  lemma MatchPrinted(k: nat)
    ensures MatchTail(MARK + Decimal(k)) == Tail(k)
  {
    var s := Decimal(k);
    assert (MARK + s)[|MARK|..] == s;
    assert s[|s|-1] in s;
    assert BeforeEnd(s) == s;
    AllDigitsRun(s);
    assert s[..|s|] == s && s[|s|..] == [];
    ToNatDecimal(k);
  }

  /** Past the mark, a matching tail holds digits, underscores and newlines only. */
  lemma {:induction false} TailAlphabet(rest: string, i: nat)
    requires MatchTail(rest).Tail? && |MARK| <= i < |rest|
    ensures IsDigit(rest[i]) || rest[i] == '_' || rest[i] == '\n'
  {
    var body := BeforeEnd(rest[|MARK|..]);
    var n, j := DigitRun(body), i - |MARK|;
    if j < n {
      assert body[j] in body[..n];
    } else if j < |body| {
      var second := body[n..];
      assert body[j] == second[j-n];
      if j > n {
        assert second[j-n] == second[1..][..|second|-1][j-n-1];
      }
    }
  }

  /** No earlier mark can end in a match: the letters of the printed mark follow it. */
  lemma {:induction false} NoEarlierMatch(p: string, k: nat, n: nat)
    requires n < |p|
    ensures MatchTail(BranchId(p, k)[n..]).NoTail?
  {
    assert BranchId(p, k)[n..] == p[n..] + MARK + Decimal(k);
    NoMatchBeforeMark(p[n..], Decimal(k));
  }

  lemma NoMatchBeforeMark(pre: string, more: string)
    requires pre != []
    ensures MatchTail(pre + MARK + more).NoTail?
  {
    var rest, d := pre + MARK + more, |pre|;
    assert rest[d] == '_' && rest[d + 1] == '_' && rest[d + 2] == 'b';
    if d + 2 < |MARK| {
      OneDoubleUnderscore(rest, d);
    } else if MatchTail(rest).Tail? {
      TailAlphabet(rest, d + 2);
    }
  }

  /** The mark has its two underscores in a row only at its start. */
  lemma OneDoubleUnderscore(rest: string, d: nat)
    requires 0 < d < |MARK| - 1 && d + 1 < |rest|
    ensures MARK <= rest ==> rest[d] != '_' || rest[d + 1] != '_'
  {
    assert MARK[d] == '_' ==> d == 1;
    assert MARK[2] == 'b';
    assert MARK <= rest ==> rest[d] == MARK[d] && rest[d + 1] == MARK[d + 1];
  }

  lemma {:induction false} ParseFromPrinted(p: string, k: nat, n: nat)
    requires 0 < n <= |p| && '\n' !in p
    ensures ParseFrom(BranchId(p, k), n) == Branch(p, k)
    decreases |p| - n
  {
    var id := BranchId(p, k);
    assert id[n-1] == p[n-1] && p[n-1] in p;
    if n < |p| {
      NoEarlierMatch(p, k, n);
      ParseFromPrinted(p, k, n + 1);
    } else {
      assert id[n..] == MARK + Decimal(k) && id[..n] == p;
      MatchPrinted(k);
    }
  }

  lemma {:induction false} ParentShape(id: string, n: nat)
    requires n > 0 && ParseFrom(id, n).Branch? && '\n' !in id[..n-1]
    requires n <= |id| + 1
    ensures ParseFrom(id, n).parent != [] && '\n' !in ParseFrom(id, n).parent
    decreases |id| - n
  {
    assert id[..n] == id[..n-1] + [id[n-1]];
    if MatchTail(id[n..]).NoTail? {
      ParentShape(id, n + 1);
    }
  }

  /** Parsing a printed branch id gives its parent and index back, exactly when
      the parent id is not empty and holds no newline, whatever else it holds. */
  lemma RoundTrip(p: string, k: nat)
    ensures ParseBranchInfo(BranchId(p, k)) == Branch(p, k) <==> p != [] && '\n' !in p
  {
    if p != [] && '\n' !in p {
      ParseFromPrinted(p, k, 1);
    } else if ParseBranchInfo(BranchId(p, k)).Branch? {
      ParentShape(BranchId(p, k), 1);
    }
  }

  lemma {:induction false} DecimalInjective(k: nat, k': nat)
    requires Decimal(k) == Decimal(k')
    ensures k == k'
  {
    ToNatDecimal(k);
    ToNatDecimal(k');
  }

  /** Printed branch ids are told apart by parent and index, whatever the parents:
      the last underscore ends the mark. */
  lemma BranchIdsInjective(p: string, k: nat, p': string, k': nat)
    requires BranchId(p, k) == BranchId(p', k')
    ensures p == p' && k == k'
  {
    LastUnderscore(p, k, p', k');
    LastUnderscore(p', k', p, k);
    var id := BranchId(p, k);
    assert id[|p| + |MARK|..] == Decimal(k) && id[|p'| + |MARK|..] == Decimal(k');
    DecimalInjective(k, k');
    assert id[..|p|] == p && id[..|p'|] == p';
  }

  lemma LastUnderscore(p: string, k: nat, p': string, k': nat)
    requires BranchId(p, k) == BranchId(p', k')
    ensures |p| <= |p'|
  {
    var at := |p| + |MARK| - 1;
    assert BranchId(p, k)[at] == MARK[|MARK|-1];
    if |p| > |p'| {
      DigitsFollow(p', k', at);
    }
  }

  lemma DigitsFollow(p: string, k: nat, i: nat)
    requires |p| + |MARK| <= i < |BranchId(p, k)|
    ensures IsDigit(BranchId(p, k)[i])
  {
    assert BranchId(p, k)[i] == Decimal(k)[i - |p| - |MARK|];
  }
}
