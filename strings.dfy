/** Python string primitives the scripts rely on, over a fixed character set:
    whitespace as `str.isspace` (which is also what the regex class `\s` matches),
    `strip`, `split('\n')`, `split()`, `' '.join`, the `in` substring test,
    `lower()` on ASCII letters and `replace`. */
module Strings {

  datatype Option<T> = None | Some(value: T)

  /** The characters for which Python's `str.isspace()` is true: the controls from tab to
      carriage return and from U+001C to the space, U+0085, U+00A0, U+1680, U+2000 to U+200A,
      U+2028, U+2029, U+202F, U+205F and U+3000. */
  predicate IsSpace(c: char) {
    ('\t' <= c <= '\r') || ('\U{1C}' <= c <= ' ') || c == '\U{85}' || c == '\U{A0}' ||
    c == '\U{1680}' || ('\U{2000}' <= c <= '\U{200A}') || c == '\U{2028}' || c == '\U{2029}' ||
    c == '\U{202F}' || c == '\U{205F}' || c == '\U{3000}'
  }

  predicate IsDigit(c: char) {
    '0' <= c <= '9'
  }

  predicate HasNonSpace(s: string) {
    exists i :: 0 <= i < |s| && !IsSpace(s[i])
  }

  /** A string that `strip()` leaves unchanged. */
  predicate IsStripped(s: string) {
    s == [] || (!IsSpace(s[0]) && !IsSpace(s[|s| - 1]))
  }

  /** `s.lstrip()`: drops the leading whitespace. */
  function LStrip(s: string): (r: string)
    ensures |r| <= |s|
    ensures r == [] || !IsSpace(r[0])
    ensures forall i :: 0 <= i < |s| - |r| ==> IsSpace(s[i])
  {
    if s != [] && IsSpace(s[0]) then LStrip(s[1..]) else s
  }

  /** What `lstrip()` leaves is a suffix of its input. */
  lemma {:induction false} LStripSuffix(s: string)
    ensures LStrip(s) == s[|s| - |LStrip(s)|..]
  {
    if s != [] && IsSpace(s[0]) {
      LStripSuffix(s[1..]);
    }
  }

  /** `s.rstrip()`: drops the trailing whitespace. */
  function RStrip(s: string): (r: string)
    ensures |r| <= |s| && r == s[..|r|]
    ensures r == [] || !IsSpace(r[|r| - 1])
    ensures forall i :: |r| <= i < |s| ==> IsSpace(s[i])
  {
    if s != [] && IsSpace(s[|s| - 1]) then RStrip(s[..|s| - 1]) else s
  }

  /** `s.strip()`. */
  function Strip(s: string): string {
    RStrip(LStrip(s))
  }

  /** What `strip()` leaves is stripped, keeps every non-space character, and is empty
      exactly when the input is all whitespace. */
  lemma StripFacts(s: string)
    ensures IsStripped(Strip(s))
    ensures Strip(s) == [] <==> !HasNonSpace(s)
    ensures Strip(s) != [] ==> HasNonSpace(Strip(s))
  {
    var l := LStrip(s);
    var r := RStrip(l);
    LStripSuffix(s);
    if r != [] {
      assert r[0] == l[0];
      assert !IsSpace(s[|s| - |l|]);
    }
  }

  /** `strip()` only removes characters. */
  lemma StripSubset(s: string)
    ensures forall c :: c in Strip(s) ==> c in s
  {
    var l := LStrip(s);
    var r := RStrip(l);
    LStripSuffix(s);
    forall c | c in r ensures c in s {
      var i :| 0 <= i < |r| && r[i] == c;
      assert l[i] == c;
      assert s[|s| - |l| + i] == c;
    }
  }

  /** A stripped string is its own `strip()`. */
  lemma StripStripped(s: string)
    requires IsStripped(s)
    ensures Strip(s) == s
  {
  }

  /** A trailing whitespace character after a stripped string is all that `strip()` drops. */
  lemma StripTrailing(s: string, c: char)
    requires s != [] && IsStripped(s) && IsSpace(c)
    ensures Strip(s + [c]) == s
  {
    assert LStrip(s + [c]) == s + [c];
    assert (s + [c])[..|s|] == s;
  }

  /** `s.split('\n')`: the pieces between newlines; at least one piece. */
  function SplitLines(s: string): (r: seq<string>)
    ensures |r| >= 1
    ensures forall i :: 0 <= i < |r| ==> '\n' !in r[i]
    decreases |s|
  {
    if '\n' !in s then [s]
    else
      var i := IndexOf(s, '\n');
      [s[..i]] + SplitLines(s[i + 1..])
  }

  /** The first index of `c` in `s`. */
  function IndexOf(s: string, c: char): (i: nat)
    requires c in s
    ensures i < |s| && s[i] == c && c !in s[..i]
  {
    if s[0] == c then 0 else 1 + IndexOf(s[1..], c)
  }

  /** `sep.join(parts)`. */
  function JoinWith(parts: seq<string>, sep: string): string {
    if parts == [] then ""
    else if |parts| == 1 then parts[0]
    else parts[0] + sep + JoinWith(parts[1..], sep)
  }

  /** Splitting the newline-joined lines of newline-free strings gives them back. */
  lemma {:induction false} SplitJoinLines(lines: seq<string>)
    requires |lines| >= 1
    requires forall i :: 0 <= i < |lines| ==> '\n' !in lines[i]
    ensures SplitLines(JoinWith(lines, "\n")) == lines
  {
    if |lines| > 1 {
      var s := JoinWith(lines, "\n");
      var rest := JoinWith(lines[1..], "\n");
      assert s == lines[0] + "\n" + rest;
      assert s[|lines[0]|] == '\n';
      assert '\n' in s;
      assert s[..|lines[0]|] == lines[0];
      assert IndexOf(s, '\n') == |lines[0]|;
      assert s[..|lines[0]|] == lines[0];
      assert s[|lines[0]| + 1..] == rest;
      SplitJoinLines(lines[1..]);
    }
  }

  /** The join starts with the first part's first character and ends with the last part's
      last character. */
  lemma {:induction false} JoinWithEnds(parts: seq<string>, sep: string)
    requires parts != [] && forall i :: 0 <= i < |parts| ==> parts[i] != []
    ensures JoinWith(parts, sep) != []
    ensures JoinWith(parts, sep)[0] == parts[0][0]
    ensures JoinWith(parts, sep)[|JoinWith(parts, sep)| - 1] == parts[|parts| - 1][|parts[|parts| - 1]| - 1]
  {
    if |parts| > 1 {
      var rest := parts[1..];
      assert rest[|rest| - 1] == parts[|parts| - 1];
      JoinWithEnds(rest, sep);
      assert JoinWith(parts, sep) == parts[0] + sep + JoinWith(rest, sep);
    }
  }

  /** A whitespace-free word. */
  predicate IsWord(w: string) {
    w != [] && forall i :: 0 <= i < |w| ==> !IsSpace(w[i])
  }

  /** The longest prefix of `s` without whitespace. */
  function WordPrefix(s: string): (w: string)
    ensures |w| <= |s| && w == s[..|w|]
    ensures forall i :: 0 <= i < |w| ==> !IsSpace(w[i])
    ensures |w| == |s| || IsSpace(s[|w|])
  {
    if s == [] || IsSpace(s[0]) then "" else [s[0]] + WordPrefix(s[1..])
  }

  /** `s.split()` with no argument: the maximal runs of non-whitespace characters. */
  function Words(s: string): (r: seq<string>)
    ensures forall i :: 0 <= i < |r| ==> IsWord(r[i])
    ensures r == [] <==> !HasNonSpace(s)
    decreases |s|
  {
    var t := LStrip(s);
    if t == [] then
      assert forall i :: 0 <= i < |s| ==> IsSpace(s[i]);
      []
    else
      var w := WordPrefix(t);
      LStripSuffix(s);
      assert !IsSpace(s[|s| - |t|]);
      [w] + Words(t[|w|..])
  }

  /** `' '.join(words)`. */
  function JoinSpace(words: seq<string>): string {
    JoinWith(words, " ")
  }

  lemma {:induction false} WordPrefixOfWord(w: string, rest: string)
    requires IsWord(w)
    requires rest == [] || IsSpace(rest[0])
    ensures WordPrefix(w + rest) == w
  {
    if |w| > 1 {
      assert (w + rest)[1..] == w[1..] + rest;
      WordPrefixOfWord(w[1..], rest);
    } else {
      assert (w + rest)[1..] == rest;
    }
  }

  lemma WordPrefixWord(w: string)
    requires IsWord(w)
    ensures WordPrefix(w) == w
  {
    if |w| > 1 { WordPrefixWord(w[1..]); }
  }

  /** `split()` of a single word is that word. */
  lemma WordsSingle(w: string)
    requires IsWord(w)
    ensures Words(w) == [w]
  {
    assert LStrip(w) == w;
    WordPrefixWord(w);
    assert w[|w|..] == [];
    assert Words([]) == [];
  }

  /** `split()` of a word followed by nothing or by whitespace starts with that word. */
  lemma WordsCons(w: string, rest: string)
    requires IsWord(w)
    requires rest == [] || IsSpace(rest[0])
    ensures Words(w + rest) == [w] + Words(rest)
  {
    var s := w + rest;
    assert s[0] == w[0];
    assert LStrip(s) == s;
    WordPrefixOfWord(w, rest);
    assert s[|w|..] == rest;
  }

  /** Leading whitespace does not change `split()`. */
  lemma WordsSpace(rest: string)
    ensures Words(" " + rest) == Words(rest)
  {
    assert LStrip(" " + rest) == LStrip(rest) by {
      assert (" " + rest)[1..] == rest;
    }
  }

  /** Splitting the space-joined words gives them back: `' '.join` and `split()` are inverse
      on lists of words. */
  lemma {:induction false} WordsOfJoin(words: seq<string>)
    requires forall i :: 0 <= i < |words| ==> IsWord(words[i])
    ensures Words(JoinSpace(words)) == words
  {
    if |words| == 1 {
      WordsSingle(words[0]);
    } else if |words| > 1 {
      var w, rest := words[0], JoinSpace(words[1..]);
      var tail := " " + rest;
      assert tail[0] == ' ';
      calc {
        Words(JoinSpace(words));
        { assert JoinSpace(words) == w + tail; }
        Words(w + tail);
        { WordsCons(w, tail); }
        [w] + Words(tail);
        { WordsSpace(rest); }
        [w] + Words(rest);
        { WordsOfJoin(words[1..]); }
        [w] + words[1..];
        words;
      }
    }
  }

  /** The space-joined list of words has no leading, trailing or doubled space. */
  lemma {:induction false} JoinSpaceShape(words: seq<string>)
    requires forall i :: 0 <= i < |words| ==> IsWord(words[i])
    ensures IsStripped(JoinSpace(words))
    ensures forall i :: 0 <= i < |JoinSpace(words)| - 1 ==>
              !(JoinSpace(words)[i] == ' ' && JoinSpace(words)[i + 1] == ' ')
  {
    if |words| > 1 {
      var w := words[0];
      var rest := JoinSpace(words[1..]);
      var s := JoinSpace(words);
      JoinSpaceShape(words[1..]);
      assert s == w + " " + rest;
      assert rest != [] by { assert |rest| >= |words[1]| by { JoinLength(words[1..]); } }
      forall i | 0 <= i < |s| - 1 ensures !(s[i] == ' ' && s[i + 1] == ' ') {
        if i < |w| - 1 {
          assert s[i] == w[i];
        } else if i == |w| - 1 {
          assert s[i] == w[i];
        } else if i == |w| {
          assert s[i + 1] == rest[0];
        } else {
          assert s[i] == rest[i - |w| - 1] && s[i + 1] == rest[i - |w|];
        }
      }
    }
  }

  /** The join is at least as long as its first part. */
  lemma JoinLength(words: seq<string>)
    requires words != []
    ensures |JoinSpace(words)| >= |words[0]|
  {
  }

  /** `pat` occurs in `s` starting at index `i`. */
  predicate OccursAt(s: string, pat: string, i: nat) {
    i + |pat| <= |s| && forall n :: 0 <= n < |pat| ==> s[i + n] == pat[n]
  }

  /** `pat in s` for strings. */
  predicate Contains(s: string, pat: string) {
    exists i: nat :: i <= |s| && OccursAt(s, pat, i)
  }

  /** A pattern whose first character does not occur in `s` does not occur in `s`. */
  lemma AbsentFirstChar(s: string, pat: string)
    requires pat != [] && pat[0] !in s
    ensures !Contains(s, pat)
  {
  }

  /** Every character under an occurrence of `pat` is a character of `pat`. */
  lemma OccurrenceCovers(s: string, pat: string, i: nat, k: nat)
    requires OccursAt(s, pat, i)
    requires i <= k < i + |pat|
    ensures s[k] in pat
  {
    assert s[i + (k - i)] == pat[k - i];
  }

  /** An occurrence of `pat` in `x + [c] + y` lies in `x` or in `y` when `c` is not a character
      of `pat`. */
  lemma ContainsAround(x: string, c: char, y: string, pat: string)
    requires c !in pat
    requires Contains(x + [c] + y, pat)
    ensures Contains(x, pat) || Contains(y, pat)
  {
    var s := x + [c] + y;
    var i: nat :| i <= |s| && OccursAt(s, pat, i);
    if i + |pat| <= |x| {
      assert x[i..i + |pat|] == s[i..i + |pat|];
      assert OccursAt(x, pat, i);
    } else if i > |x| {
      var j: nat := i - |x| - 1;
      assert y[j..j + |pat|] == s[i..i + |pat|];
      assert OccursAt(y, pat, j);
    } else {
      OccurrenceCovers(s, pat, i, |x|);
      assert false;
    }
  }

  /** The number a string of ASCII digits spells, as `int()` reads it. */
  function Value(digits: string): nat {
    if digits == [] then 0
    else Value(digits[..|digits| - 1]) * 10 + DigitValue(digits[|digits| - 1])
  }

  function DigitValue(c: char): nat {
    if IsDigit(c) then c as int - '0' as int else 0
  }

  predicate AllDigits(s: string) {
    forall i :: 0 <= i < |s| ==> IsDigit(s[i])
  }

  /** `str(n)`: the decimal digits of `n`, with no leading zero. */
  function Decimal(n: nat): (r: string)
    ensures r != [] && AllDigits(r)
  {
    if n < 10 then [('0' as int + n) as char] else Decimal(n / 10) + [('0' as int + n % 10) as char]
  }

  /** Reading the decimal digits of `n` gives `n` back. */
  lemma {:induction false} ValueDecimal(n: nat)
    ensures Value(Decimal(n)) == n
  {
    var d := Decimal(n);
    if n >= 10 {
      ValueDecimal(n / 10);
      assert d[..|d| - 1] == Decimal(n / 10);
    }
  }

  /** `c.lower()` on ASCII letters; every other character is left as it is. */
  function LowerChar(c: char): char {
    if 'A' <= c <= 'Z' then (c as int + 32) as char else c
  }

  /** `s.lower()`, on ASCII letters. */
  function Lower(s: string): (r: string)
    ensures |r| == |s|
    ensures forall i :: 0 <= i < |s| ==> r[i] == LowerChar(s[i])
  {
    if s == [] then [] else [LowerChar(s[0])] + Lower(s[1..])
  }

  /** Lower-casing only changes upper-case ASCII letters, so it fixes a string that has none,
      and nothing else lower-cases to such a string. */
  lemma LowerFixed(s: string, t: string)
    requires forall i :: 0 <= i < |t| ==> !('A' <= t[i] <= 'Z') && !('a' <= t[i] <= 'z')
    ensures Lower(s) == t <==> s == t
  {
    if Lower(s) == t {
      forall i | 0 <= i < |s| ensures s[i] == t[i] {
        assert LowerChar(s[i]) == t[i];
      }
    }
    if s == t {
      assert Lower(s) == t;
    }
  }

  /** `s.replace(pat, rep)`: every non-overlapping occurrence of `pat`, scanned from the left,
      is replaced by `rep`. */
  function ReplaceAll(s: string, pat: string, rep: string): string
    requires pat != []
    decreases |s|
  {
    if |s| < |pat| then s
    else if s[..|pat|] == pat then rep + ReplaceAll(s[|pat|..], pat, rep)
    else [s[0]] + ReplaceAll(s[1..], pat, rep)
  }

  /** Replacing a pattern that does not occur changes nothing. */
  lemma {:induction false} ReplaceAbsent(s: string, pat: string, rep: string)
    requires pat != []
    requires !Contains(s, pat)
    ensures ReplaceAll(s, pat, rep) == s
  {
    if |s| >= |pat| {
      assert !OccursAt(s, pat, 0);
      AbsentTail(s, pat);
      ReplaceAbsent(s[1..], pat, rep);
    }
  }

  /** Dropping the first character of a string without `pat` leaves a string without it. */
  lemma AbsentTail(s: string, pat: string)
    requires s != [] && !Contains(s, pat)
    ensures !Contains(s[1..], pat)
  {
    forall i: nat | OccursAt(s[1..], pat, i) ensures OccursAt(s, pat, i + 1) {
      assert s[1..][i..i + |pat|] == s[i + 1..i + 1 + |pat|];
    }
  }

  /** No proper prefix of `pat` is also a suffix of it, so two occurrences of `pat` can
      never overlap. */
  predicate Borderless(pat: string) {
    forall k :: 0 < k < |pat| ==> pat[..k] != pat[|pat| - k..]
  }

  /** A non-empty text without a borderless pattern, followed by the pattern, does not start
      with the pattern. */
  lemma NotAtStart(p: string, pat: string, rest: string)
    requires p != [] && Borderless(pat) && !Contains(p, pat)
    ensures (p + pat + rest)[..|pat|] != pat
  {
    var s := p + pat + rest;
    if |p| >= |pat| {
      assert s[..|pat|] == p[..|pat|];
      assert !OccursAt(p, pat, 0);
    } else {
      // An occurrence at 0 would make the last `|pat| - |p|` characters of `pat` a border.
      assert s[..|pat|][|p|..] == pat[..|pat| - |p|];
    }
  }

  /** Text without the pattern cannot hide an occurrence that runs into a following
      occurrence of a borderless pattern: the first occurrence in `p + pat + rest` is the
      one after `p`. */
  lemma {:induction false} ReplaceFirst(p: string, pat: string, rest: string, rep: string)
    requires pat != [] && Borderless(pat) && !Contains(p, pat)
    ensures ReplaceAll(p + pat + rest, pat, rep) == p + rep + ReplaceAll(rest, pat, rep)
  {
    var s := p + pat + rest;
    if p == [] {
      assert s[..|pat|] == pat && s[|pat|..] == rest;
    } else {
      var tail := ReplaceAll(rest, pat, rep);
      NotAtStart(p, pat, rest);
      AbsentTail(p, pat);
      calc {
        ReplaceAll(s, pat, rep);
        [s[0]] + ReplaceAll(s[1..], pat, rep);
        { assert s[1..] == p[1..] + pat + rest; }
        [p[0]] + ReplaceAll(p[1..] + pat + rest, pat, rep);
        { ReplaceFirst(p[1..], pat, rest, rep); }
        [p[0]] + (p[1..] + rep + tail);
        { assert [p[0]] + p[1..] == p; }
        p + rep + tail;
      }
    }
  }

  /** `sep.join(parts).replace(sep, rep) == rep.join(parts)` when no part holds the borderless
      separator: every occurrence is a joint, and every joint is replaced. */
  lemma {:induction false} ReplaceJoints(parts: seq<string>, pat: string, rep: string)
    requires pat != [] && Borderless(pat)
    requires forall i :: 0 <= i < |parts| ==> !Contains(parts[i], pat)
    ensures ReplaceAll(JoinWith(parts, pat), pat, rep) == JoinWith(parts, rep)
  {
    if |parts| == 1 {
      ReplaceAbsent(parts[0], pat, rep);
    } else if |parts| > 1 {
      ReplaceFirst(parts[0], pat, JoinWith(parts[1..], pat), rep);
      ReplaceJoints(parts[1..], pat, rep);
    }
  }
}
