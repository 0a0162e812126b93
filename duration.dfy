/** `calculate_duration_from_topics`: the sum of the integers written before a unit word, as
    `re.findall(r'(\d+)\s*UNIT', text)` finds them, or 20 when there are none. main.py uses
    the unit `分钟` and main1.py the unit `minutes`. */
module Duration {
  import opened Strings

  const DefaultMinutes := 20

  /** The unit word of main.py. */
  const UnitZh := "分钟"

  /** The unit word of main1.py. */
  const UnitEn := "minutes"

  /** A unit word the scanner below handles exactly as the regular expression does: it is
      non-empty and holds no digit, and its first character is not whitespace. */
  predicate ValidUnit(unit: string) {
    unit != [] && !IsSpace(unit[0]) && forall k :: 0 <= k < |unit| ==> !IsDigit(unit[k])
  }

  lemma UnitsValid()
    ensures ValidUnit(UnitZh) && ValidUnit(UnitEn)
  {
  }

  /** The end of the run of digits that starts at `i`. */
  function DigitEnd(s: string, i: nat): (j: nat)
    requires i <= |s|
    ensures i <= j <= |s|
    ensures forall k :: i <= k < j ==> IsDigit(s[k])
    ensures j == |s| || !IsDigit(s[j])
    decreases |s| - i
  {
    if i < |s| && IsDigit(s[i]) then DigitEnd(s, i + 1) else i
  }

  /** The end of the run of whitespace that starts at `j`. */
  function SpaceEnd(s: string, j: nat): (k: nat)
    requires j <= |s|
    ensures j <= k <= |s|
    ensures forall m :: j <= m < k ==> IsSpace(s[m])
    ensures k == |s| || !IsSpace(s[k])
    decreases |s| - j
  {
    if j < |s| && IsSpace(s[j]) then SpaceEnd(s, j + 1) else j
  }

  /** The digits at `i` are followed, after optional whitespace, by the unit. */
  predicate Followed(s: string, unit: string, i: nat)
    requires i <= |s|
  {
    OccursAt(s, unit, SpaceEnd(s, DigitEnd(s, i)))
  }

  /** `i` starts a maximal run of digits. */
  predicate RunStart(s: string, i: nat) {
    i < |s| && IsDigit(s[i]) && (i == 0 || !IsDigit(s[i - 1]))
  }

  /** The number of the run that starts at `i` when the unit follows it, and nothing else. */
  function Here(s: string, unit: string, i: nat): seq<nat>
    requires i < |s|
  {
    if RunStart(s, i) && Followed(s, unit, i) then [Value(s[i..DigitEnd(s, i)])] else []
  }

  /** What every position of `s` contributes, in order. */
  function Marks(s: string, unit: string): (r: seq<seq<nat>>)
    ensures |r| == |s|
  {
    seq(|s|, i requires 0 <= i < |s| => Here(s, unit, i))
  }

  /** The contributions one after the other. */
  function Joined(parts: seq<seq<nat>>): seq<nat> {
    if parts == [] then [] else parts[0] + Joined(parts[1..])
  }

  /** The numbers of every maximal run of digits from `i` on that the unit follows, in order
      of position. */
  function Counted(s: string, unit: string, i: nat): seq<nat>
    requires i <= |s|
  {
    Joined(Marks(s, unit)[i..])
  }

  /** Counting from `i` is what `i` contributes followed by counting from `i + 1`. */
  lemma CountedStep(s: string, unit: string, i: nat)
    requires i < |s|
    ensures Counted(s, unit, i) == Here(s, unit, i) + Counted(s, unit, i + 1)
  {
    var m := Marks(s, unit);
    assert m[i..][1..] == m[i + 1..];
  }

  lemma CountedEnd(s: string, unit: string)
    ensures Counted(s, unit, |s|) == []
  {
  }

  /** One attempt of the pattern at `i`: the number it captures and where the match ends.
      The digits are taken greedily; giving digits or whitespace back cannot help, because
      the unit starts with neither. */
  function TryAt(s: string, unit: string, i: nat): (r: Option<(nat, nat)>)
    requires i < |s|
    ensures r.Some? ==> i < r.value.1 <= |s|
  {
    if !IsDigit(s[i]) then None
    else
      var j := DigitEnd(s, i);
      var k := SpaceEnd(s, j);
      if OccursAt(s, unit, k) then Some((Value(s[i..j]), k + |unit|)) else None
  }

  /** `re.findall` from position `i`: try the pattern, and after a match go on where it ended,
      otherwise one character further on. */
  function FindAll(s: string, unit: string, i: nat): (r: seq<nat>)
    requires i <= |s|
    ensures |r| <= |s| - i
    decreases |s| - i
  {
    if i == |s| then []
    else match TryAt(s, unit, i)
      case Some((v, e)) => [v] + FindAll(s, unit, e)
      case None => FindAll(s, unit, i + 1)
  }

  function Sum(xs: seq<nat>): nat {
    if xs == [] then 0 else xs[0] + Sum(xs[1..])
  }

  /** No term of a sum of naturals exceeds the sum. */
  lemma {:induction false} SumBound(xs: seq<nat>, k: nat)
    requires k < |xs|
    ensures xs[k] <= Sum(xs)
  {
    if k > 0 {
      SumBound(xs[1..], k - 1);
    }
  }

  /** `calculate_duration_from_topics` for the given unit word: 20 when nothing is found, and
      otherwise at least every number found. */
  function DurationFor(text: string, unit: string): (r: nat)
    ensures FindAll(text, unit, 0) == [] ==> r == DefaultMinutes
    ensures forall k :: 0 <= k < |FindAll(text, unit, 0)| ==> FindAll(text, unit, 0)[k] <= r
  {
    var minutes := FindAll(text, unit, 0);
    if minutes == [] then DefaultMinutes
    else
      assert forall k :: 0 <= k < |minutes| ==> minutes[k] <= Sum(minutes) by {
        forall k | 0 <= k < |minutes| {
          SumBound(minutes, k);
        }
      }
      Sum(minutes)
  }

  /** main.py's version: 20 when no digit run is followed by the unit, and otherwise the sum
      of those runs. */
  function DurationZh(text: string): (r: nat)
    ensures r == if Counted(text, UnitZh, 0) == [] then DefaultMinutes else Sum(Counted(text, UnitZh, 0))
  {
    UnitsValid();
    DurationCounted(text, UnitZh);
    DurationFor(text, UnitZh)
  }

  /** main1.py's version, with the same meaning for its unit. */
  function DurationEn(text: string): (r: nat)
    ensures r == if Counted(text, UnitEn, 0) == [] then DefaultMinutes else Sum(Counted(text, UnitEn, 0))
  {
    UnitsValid();
    DurationCounted(text, UnitEn);
    DurationFor(text, UnitEn)
  }

  /** A position the scan may stand at: not inside a run of digits that the unit follows. */
  predicate Aligned(s: string, unit: string, i: nat)
    requires i <= |s|
  {
    i == 0 || i == |s| || !IsDigit(s[i - 1]) || !IsDigit(s[i]) || !Followed(s, unit, i)
  }

  /** Inside a run of digits the run ends where it ends from any earlier digit. */
  lemma DigitEndInside(s: string, i: nat)
    requires i + 1 < |s| && IsDigit(s[i])
    ensures DigitEnd(s, i) == DigitEnd(s, i + 1)
  {
  }

  /** Nothing is counted at positions that do not start a run followed by the unit. */
  lemma {:induction false} CountedSkip(s: string, unit: string, i: nat, e: nat)
    requires i <= e <= |s|
    requires forall p :: i <= p < e ==> !RunStart(s, p)
    ensures Counted(s, unit, i) == Counted(s, unit, e)
    decreases e - i
  {
    if i < e {
      CountedStep(s, unit, i);
      CountedSkip(s, unit, i + 1, e);
    }
  }

  /** Where the pattern matches, the position starts a counted run, nothing up to the end of
      the match is counted, and the scan is aligned again after it. */
  lemma MatchStep(s: string, unit: string, i: nat)
    requires ValidUnit(unit) && i < |s| && Aligned(s, unit, i) && TryAt(s, unit, i).Some?
    ensures RunStart(s, i) && Followed(s, unit, i)
    ensures TryAt(s, unit, i).value.0 == Value(s[i..DigitEnd(s, i)])
    ensures Counted(s, unit, i + 1) == Counted(s, unit, TryAt(s, unit, i).value.1)
    ensures Aligned(s, unit, TryAt(s, unit, i).value.1)
  {
    var e := TryAt(s, unit, i).value.1;
    var j := DigitEnd(s, i);
    var k := SpaceEnd(s, j);
    assert e == k + |unit| && OccursAt(s, unit, k);
    assert forall p :: k <= p < e ==> s[p] == unit[p - k] by {
      forall p | k <= p < e ensures s[p] == unit[p - k] {
        assert s[k + (p - k)] == unit[p - k];
      }
    }
    assert Aligned(s, unit, e) by {
      if e < |s| {
        assert s[e - 1] == unit[|unit| - 1];
      }
    }
    forall p | i + 1 <= p < e ensures !RunStart(s, p) {
      if p < j {
        assert IsDigit(s[p - 1]);
      } else if p >= k {
        assert s[p] == unit[p - k];
      }
    }
    CountedSkip(s, unit, i + 1, e);
  }

  /** Where the pattern does not match, nothing is counted and the next position is aligned. */
  lemma MissStep(s: string, unit: string, i: nat)
    requires ValidUnit(unit) && i < |s| && Aligned(s, unit, i) && TryAt(s, unit, i).None?
    ensures !(RunStart(s, i) && Followed(s, unit, i))
    ensures Aligned(s, unit, i + 1)
  {
    if i + 1 < |s| && IsDigit(s[i]) && IsDigit(s[i + 1]) {
      DigitEndInside(s, i);
    }
  }

  /** The scanner and the declarative count agree from every aligned position: `re.findall`
      finds exactly the maximal runs of digits that the unit follows, in order. */
  lemma {:induction false} FindAllCounted(s: string, unit: string, i: nat)
    requires ValidUnit(unit) && i <= |s| && Aligned(s, unit, i)
    ensures FindAll(s, unit, i) == Counted(s, unit, i)
    decreases |s| - i
  {
    if i == |s| {
      CountedEnd(s, unit);
    } else {
      CountedStep(s, unit, i);
      if TryAt(s, unit, i).Some? {
        MatchStep(s, unit, i);
        FindAllCounted(s, unit, TryAt(s, unit, i).value.1);
      } else {
        MissStep(s, unit, i);
        FindAllCounted(s, unit, i + 1);
      }
    }
  }

  /** The duration is the sum of the numbers of every maximal run of digits that the unit
      follows, after optional whitespace, and 20 when there is none. */
  lemma DurationCounted(text: string, unit: string)
    requires ValidUnit(unit)
    ensures DurationFor(text, unit) ==
      if Counted(text, unit, 0) == [] then DefaultMinutes else Sum(Counted(text, unit, 0))
  {
    FindAllCounted(text, unit, 0);
  }

  /** The digit run from `i` ends at the first non-digit. */
  lemma DigitEndAt(s: string, i: nat, j: nat)
    requires i <= j <= |s|
    requires forall k :: i <= k < j ==> IsDigit(s[k])
    requires j == |s| || !IsDigit(s[j])
    ensures DigitEnd(s, i) == j
  {
  }

  /** The whitespace run from `j` ends at the first non-whitespace character. */
  lemma SpaceEndAt(s: string, j: nat, k: nat)
    requires j <= k <= |s|
    requires forall m :: j <= m < k ==> IsSpace(s[m])
    requires k == |s| || !IsSpace(s[k])
    ensures SpaceEnd(s, j) == k
  {
  }

  /** A text without digits gets the default duration. */
  lemma DurationNoDigits(text: string, unit: string)
    requires ValidUnit(unit)
    requires NoDigits(text)
    ensures DurationFor(text, unit) == DefaultMinutes
  {
    CountedSkip(text, unit, 0, |text|);
    CountedEnd(text, unit);
    DurationCounted(text, unit);
  }

  /** Behind `pre`, a digit run inside `rest` ends where it ends in `rest`. */
  lemma DigitEndShift(pre: string, rest: string, q: nat)
    requires q <= |rest|
    ensures DigitEnd(pre + rest, |pre| + q) == |pre| + DigitEnd(rest, q)
  {
    DigitEndAt(pre + rest, |pre| + q, |pre| + DigitEnd(rest, q));
  }

  /** Behind `pre`, a whitespace run inside `rest` ends where it ends in `rest`. */
  lemma SpaceEndShift(pre: string, rest: string, j: nat)
    requires j <= |rest|
    ensures SpaceEnd(pre + rest, |pre| + j) == |pre| + SpaceEnd(rest, j)
  {
    SpaceEndAt(pre + rest, |pre| + j, |pre| + SpaceEnd(rest, j));
  }

  lemma SliceShift(pre: string, rest: string, a: nat, b: nat)
    requires a <= b <= |rest|
    ensures (pre + rest)[|pre| + a..|pre| + b] == rest[a..b]
  {
    assert (pre + rest)[|pre|..] == rest;
  }

  /** Behind `pre`, the unit occurs where it occurs in `rest`. */
  lemma OccursShift(pre: string, rest: string, unit: string, k: nat)
    requires k <= |rest|
    ensures OccursAt(pre + rest, unit, |pre| + k) == OccursAt(rest, unit, k)
  {
    var s := pre + rest;
    if k + |unit| <= |rest| {
      assert s[|pre|..] == rest;
      assert s[|pre| + k..|pre| + k + |unit|] == rest[k..k + |unit|];
    }
  }

  /** Positions inside `rest` see the same digit run and the same unit behind `pre`. */
  lemma FollowedShift(pre: string, rest: string, unit: string, q: nat)
    requires q <= |rest|
    ensures DigitEnd(pre + rest, |pre| + q) == |pre| + DigitEnd(rest, q)
    ensures Followed(pre + rest, unit, |pre| + q) == Followed(rest, unit, q)
  {
    var j := DigitEnd(rest, q);
    DigitEndShift(pre, rest, q);
    SpaceEndShift(pre, rest, j);
    OccursShift(pre, rest, unit, SpaceEnd(rest, j));
  }

  /** A position inside `rest` counts the same behind text that does not end in a digit. */
  lemma HereShift(pre: string, rest: string, unit: string, q: nat)
    requires pre == [] || !IsDigit(pre[|pre| - 1])
    requires q < |rest|
    ensures Here(pre + rest, unit, |pre| + q) == Here(rest, unit, q)
  {
    var s := pre + rest;
    var p := |pre| + q;
    FollowedShift(pre, rest, unit, q);
    SliceShift(pre, rest, q, DigitEnd(rest, q));
    if p > 0 {
      assert s[p - 1] == if q == 0 then pre[|pre| - 1] else rest[q - 1];
    }
    assert RunStart(s, p) == RunStart(rest, q);
  }

  /** Counting inside `rest` is unaffected by text in front of it that does not end in a
      digit. */
  lemma CountedShift(pre: string, rest: string, unit: string)
    requires pre == [] || !IsDigit(pre[|pre| - 1])
    ensures Counted(pre + rest, unit, |pre|) == Counted(rest, unit, 0)
  {
    var shifted, own := Marks(pre + rest, unit)[|pre|..], Marks(rest, unit);
    forall k | 0 <= k < |own| ensures shifted[k] == own[k] {
      HereShift(pre, rest, unit, k);
    }
    assert shifted == own[0..];
  }

  /** Text without digits in front changes nothing that is counted. */
  lemma CountedAfterText(pre: string, rest: string, unit: string)
    requires NoDigits(pre)
    ensures Counted(pre + rest, unit, 0) == Counted(rest, unit, 0)
  {
    CountedSkip(pre + rest, unit, 0, |pre|);
    CountedShift(pre, rest, unit);
  }

  /** A number written before the unit, as a topic's duration is: `str(n) + " " + unit`. */
  function Block(n: nat, unit: string): string {
    Decimal(n) + " " + unit
  }

  /** The pattern matches at the start of a block followed by `rest` and captures `n`. */
  lemma BlockStart(n: nat, unit: string, rest: string)
    requires ValidUnit(unit)
    ensures RunStart(Block(n, unit) + rest, 0)
    ensures Followed(Block(n, unit) + rest, unit, 0)
    ensures DigitEnd(Block(n, unit) + rest, 0) == |Decimal(n)|
    ensures Value((Block(n, unit) + rest)[..|Decimal(n)|]) == n
  {
    var d := Decimal(n);
    var text := Block(n, unit) + rest;
    assert text[..|d|] == d;
    DigitEndAt(text, 0, |d|);
    assert text[|d|] == ' ';
    SpaceEndAt(text, |d|, |d| + 1);
    assert text[|d| + 1..|d| + 1 + |unit|] == unit;
    ValueDecimal(n);
  }

  /** No run of digits starts inside a block after its first character. */
  lemma BlockInterior(n: nat, unit: string, rest: string, p: nat)
    requires ValidUnit(unit)
    requires 1 <= p < |Block(n, unit)|
    ensures !RunStart(Block(n, unit) + rest, p)
  {
    var d := Decimal(n);
    var text := Block(n, unit) + rest;
    if p < |d| {
      assert text[p - 1] == d[p - 1];
    } else if p == |d| {
      assert text[p] == ' ';
    } else {
      assert text[p] == unit[p - |d| - 1];
    }
  }

  /** A block in front of `rest` counts `n` and then whatever `rest` counts. */
  lemma CountedBlock(n: nat, unit: string, rest: string)
    requires ValidUnit(unit)
    ensures Counted(Block(n, unit) + rest, unit, 0) == [n] + Counted(rest, unit, 0)
  {
    var block := Block(n, unit);
    var text := block + rest;
    BlockStart(n, unit, rest);
    assert Here(text, unit, 0) == [n];
    CountedStep(text, unit, 0);
    forall p | 1 <= p < |block| ensures !RunStart(text, p) {
      BlockInterior(n, unit, rest, p);
    }
    CountedSkip(text, unit, 1, |block|);
    assert block[|block| - 1] == unit[|unit| - 1];
    CountedShift(block, rest, unit);
  }

  /** A block is read back as `n` minutes, for every `n`, including zero: a stated zero is not
      replaced by the default. */
  lemma DurationOfDecimal(n: nat, unit: string)
    requires ValidUnit(unit)
    ensures DurationFor(Block(n, unit), unit) == n
  {
    CountedBlock(n, unit, []);
    assert Block(n, unit) + [] == Block(n, unit);
    DurationCounted(Block(n, unit), unit);
  }

  predicate NoDigits(s: string) {
    forall i :: 0 <= i < |s| ==> !IsDigit(s[i])
  }

  /** Text without digits counts nothing. */
  lemma CountedNoDigits(s: string, unit: string)
    requires NoDigits(s)
    ensures Counted(s, unit, 0) == []
  {
    CountedSkip(s, unit, 0, |s|);
    CountedEnd(s, unit);
  }

  lemma Regroup(p: string, x: string, m: string, y: string, t: string)
    ensures p + x + m + y + t == p + (x + (m + (y + t)))
  {
  }

  /** Two blocks amid text without digits: both numbers are counted, in order. */
  lemma CountedTwoBlocks(pre: string, a: nat, mid: string, b: nat, post: string, unit: string)
    requires ValidUnit(unit) && NoDigits(pre) && NoDigits(mid) && NoDigits(post)
    ensures Counted(pre + Block(a, unit) + mid + Block(b, unit) + post, unit, 0) == [a, b]
  {
    var tail := Block(b, unit) + post;
    var rest := mid + tail;
    assert Counted(tail, unit, 0) == [b] by {
      CountedBlock(b, unit, post);
      CountedNoDigits(post, unit);
    }
    assert Counted(rest, unit, 0) == [b] by {
      CountedAfterText(mid, tail, unit);
    }
    assert Counted(Block(a, unit) + rest, unit, 0) == [a, b] by {
      CountedBlock(a, unit, rest);
    }
    assert Counted(pre + (Block(a, unit) + rest), unit, 0) == [a, b] by {
      CountedAfterText(pre, Block(a, unit) + rest, unit);
    }
    Regroup(pre, Block(a, unit), mid, Block(b, unit), post);
  }
}
