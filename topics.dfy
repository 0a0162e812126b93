/** The topic side of main3_2.py: `select_topic`, which lets the user pick one of the core
    topics by number or asks for a random one; the word count the script prompt asks for; and
    the path `read_json_file` falls back to. The user's answer and the random draw are
    parameters, and so are the file operations. */
module Topics {
  import opened Strings

  /** The key of the topic list in the topics document. */
  const CoreTopicsKey := "core_topics"

  /** The script prompt's estimate of spoken words per minute. */
  const WordsPerMinute := 150

  const JsonSuffix := ".json"
  const TextSuffix := ".txt"

  // ---- int() on the user's answer ----

  /** Position `i` of a digit run holds a digit, or an underscore followed by a digit. */
  predicate RunCharAt(s: string, i: nat)
    requires i < |s|
  {
    IsDigit(s[i]) || (s[i] == '_' && i + 1 < |s| && IsDigit(s[i + 1]))
  }

  /** The body of a Python integer literal in base 10: digits, with single underscores allowed
      between two digits. */
  predicate DigitRun(s: string) {
    s != [] && IsDigit(s[0]) && IsDigit(s[|s| - 1]) && forall i: nat :: i < |s| ==> RunCharAt(s, i)
  }

  /** The digits of a run with its underscores taken out. */
  function DigitsOf(s: string): (r: string)
    ensures |r| <= |s|
  {
    if s == [] then []
    else if s[0] == '_' then DigitsOf(s[1..])
    else [s[0]] + DigitsOf(s[1..])
  }

  /** The whitespace `int()` ignores around a number: what `str.isspace` accepts, except the
      four information separators U+001C to U+001F, which `int()` keeps and then rejects. */
  predicate IntSpace(c: char) {
    IsSpace(c) && !('\U{1C}' <= c <= '\U{1F}')
  }

  /** The answer without the leading whitespace `int()` ignores. */
  function IntLStrip(s: string): (r: string)
    ensures |r| <= |s|
    ensures r == [] || !IntSpace(r[0])
    ensures forall i :: 0 <= i < |s| - |r| ==> IntSpace(s[i])
  {
    if s != [] && IntSpace(s[0]) then IntLStrip(s[1..]) else s
  }

  /** What is left after the leading whitespace is a suffix of the answer. */
  lemma {:induction false} IntLStripSuffix(s: string)
    ensures IntLStrip(s) == s[|s| - |IntLStrip(s)|..]
  {
    if s != [] && IntSpace(s[0]) {
      IntLStripSuffix(s[1..]);
      assert s[1..][|s| - 1 - |IntLStrip(s)|..] == s[|s| - |IntLStrip(s)|..];
    }
  }

  /** The answer without the trailing whitespace `int()` ignores. */
  function IntRStrip(s: string): (r: string)
    ensures |r| <= |s| && r == s[..|r|]
    ensures r == [] || !IntSpace(r[|r| - 1])
    ensures forall i :: |r| <= i < |s| ==> IntSpace(s[i])
  {
    if s != [] && IntSpace(s[|s| - 1]) then IntRStrip(s[..|s| - 1]) else s
  }

  /** The text `int()` reads the number from: the answer with that whitespace gone from both
      ends. */
  function IntTrim(s: string): (r: string)
    ensures r == [] || (!IntSpace(r[0]) && !IntSpace(r[|r| - 1]))
  {
    IntRStrip(IntLStrip(s))
  }

  /** What `int()` reads starts where the leading whitespace ends. */
  lemma IntTrimFirst(s: string)
    ensures IntTrim(s) != [] ==> IntTrim(s)[0] == s[|s| - |IntLStrip(s)|]
  {
    IntLStripSuffix(s);
  }

  /** A text with no such whitespace at either end is read as it is. */
  lemma IntTrimmed(s: string)
    requires s == [] || (!IntSpace(s[0]) && !IntSpace(s[|s| - 1]))
    ensures IntTrim(s) == s
  {
    assert IntLStrip(s) == s;
  }

  /** The number an already trimmed text spells: an optional sign, then a digit run; `None`
      for anything else. A number needs a sign or a digit first. */
  function ReadSigned(t: string): (r: Option<int>)
    ensures r.Some? ==> t != [] && (t[0] == '-' || t[0] == '+' || IsDigit(t[0]))
  {
    if t != [] && (t[0] == '-' || t[0] == '+') then
      var body := t[1..];
      if !DigitRun(body) then None
      else if t[0] == '-' then Some(0 - Value(DigitsOf(body)))
      else Some(Value(DigitsOf(body)))
    else if DigitRun(t) then Some(Value(DigitsOf(t)))
    else None
  }

  /** `int()` on the answer: the whitespace above is ignored at both ends, an optional sign may
      come first, and the rest must be a digit run; anything else raises, which is `None` here. */
  function ParseInt(s: string): (r: Option<int>)
    ensures r.Some? ==> HasNonSpace(s)
  {
    IntTrimFirst(s);
    var r := ReadSigned(IntTrim(s));
    assert r.Some? ==> !IsSpace(s[|s| - |IntLStrip(s)|]);
    r
  }

  /** `int()` skips tabs, newlines and spaces, but not an information separator. */
  lemma ParseIntSpaces()
    ensures ParseInt("\t7\n") == Some(7)
    ensures ParseInt("\U{1C}7") == None
  {
    assert IntLStrip("\t7\n") == "7\n";
    assert IntRStrip("7\n") == "7";
    assert DigitRun("7") && DigitsOf("7") == "7";
    assert Value("7") == 7;
    var sep := "\U{1C}7";
    assert IntLStrip(sep) == sep && IntRStrip(sep) == sep;
    assert !DigitRun(sep);
  }

  lemma {:induction false} DigitsOfDigits(s: string)
    requires AllDigits(s)
    ensures DigitsOf(s) == s
  {
    if s != [] {
      DigitsOfDigits(s[1..]);
    }
  }

  /** A non-empty string of digits is a digit run with no surrounding whitespace. */
  lemma DigitsAreRun(d: string)
    requires d != [] && AllDigits(d)
    ensures DigitRun(d) && IntTrim(d) == d
  {
    assert IsDigit(d[0]) && IsDigit(d[|d| - 1]);
    IntTrimmed(d);
  }

  /** A minus sign before a non-empty string of digits leaves nothing for `strip` to remove. */
  lemma NegatedStripped(d: string)
    requires d != [] && AllDigits(d)
    ensures IntTrim("-" + d) == "-" + d && ("-" + d)[1..] == d
  {
    var m := "-" + d;
    assert m[|m| - 1] == d[|d| - 1];
    IntTrimmed(m);
    assert m[1..] == d;
  }

  /** Text with no ignorable whitespace at either end is read as it stands. */
  lemma ParseTrimmed(t: string)
    requires IntTrim(t) == t
    ensures ParseInt(t) == ReadSigned(t)
  {
  }

  /** A numeral of ASCII digits reads as its value. */
  lemma ParseDigits(d: string)
    requires d != [] && AllDigits(d)
    ensures ParseInt(d) == Some(Value(d))
  {
    DigitsAreRun(d);
    ParseTrimmed(d);
    DigitsOfDigits(d);
  }

  /** A minus sign before a numeral of ASCII digits reads as the negated value. */
  lemma ParseNegatedDigits(d: string)
    requires d != [] && AllDigits(d)
    ensures ParseInt("-" + d) == Some(0 - Value(d))
  {
    var m := "-" + d;
    NegatedStripped(d);
    ParseTrimmed(m);
    DigitsAreRun(d);
    ReadNegative(m);
    DigitsOfDigits(d);
  }

  /** A minus sign followed by a digit run reads as the run's negated value. */
  lemma ReadNegative(t: string)
    requires t != [] && t[0] == '-' && DigitRun(t[1..])
    ensures ReadSigned(t) == Some(0 - Value(DigitsOf(t[1..])))
  {
  }

  /** A numeral of value `n` reads as `n`, and as `-n` with a minus sign in front. */
  lemma ParseNumeral(d: string, n: int)
    requires d != [] && AllDigits(d) && Value(d) == n
    ensures ParseInt(d) == Some(n)
    ensures ParseInt("-" + d) == Some(0 - n)
  {
    ParseDigits(d);
    ParseNegatedDigits(d);
  }

  /** `int(str(n)) == n`, and likewise with a minus sign in front. */
  lemma ParseDecimal(n: nat)
    ensures ParseInt(Decimal(n)) == Some(n)
    ensures ParseInt("-" + Decimal(n)) == Some(0 - n)
  {
    ValueDecimal(n);
    ParseNumeral(Decimal(n), n);
  }

  /** A string of nothing but the whitespace `int()` ignores. */
  predicate AllIntSpace(w: string) {
    forall i :: 0 <= i < |w| ==> IntSpace(w[i])
  }

  /** Leading ignorable whitespace in front of a text that does not start with any is
      exactly what is dropped. */
  lemma {:induction false} IntLStripSpaces(w: string, x: string)
    requires AllIntSpace(w) && (x == [] || !IntSpace(x[0]))
    ensures IntLStrip(w + x) == x
  {
    if w == [] {
      assert w + x == x;
    } else {
      assert (w + x)[1..] == w[1..] + x;
      IntLStripSpaces(w[1..], x);
    }
  }

  /** Trailing ignorable whitespace after a text that does not end with any is exactly what
      is dropped. */
  lemma {:induction false} IntRStripSpaces(x: string, w: string)
    requires AllIntSpace(w) && (x == [] || !IntSpace(x[|x| - 1]))
    ensures IntRStrip(x + w) == x
  {
    if w == [] {
      assert x + w == x;
    } else {
      var init := w[..|w| - 1];
      assert (x + w)[..|x + w| - 1] == x + init;
      IntRStripSpaces(x, init);
    }
  }

  /** A text with ignorable whitespace around it is read as the text alone. */
  lemma IntTrimPadded(w1: string, t: string, w2: string)
    requires AllIntSpace(w1) && AllIntSpace(w2)
    requires t != [] && !IntSpace(t[0]) && !IntSpace(t[|t| - 1])
    ensures IntTrim(w1 + t + w2) == t
  {
    assert w1 + t + w2 == w1 + (t + w2);
    IntLStripSpaces(w1, t + w2);
    IntRStripSpaces(t, w2);
  }

  /** `int()` depends on the answer only through the text it reads. */
  lemma ParseSameTrim(s: string, t: string)
    requires IntTrim(s) == IntTrim(t)
    ensures ParseInt(s) == ParseInt(t)
  {
  }

  /** Ignorable whitespace around a text with none at its ends does not change what `int()`
      makes of it. */
  lemma ParseTrimmedPadded(w1: string, t: string, w2: string)
    requires AllIntSpace(w1) && AllIntSpace(w2)
    requires t != [] && !IntSpace(t[0]) && !IntSpace(t[|t| - 1])
    ensures ParseInt(w1 + t + w2) == ParseInt(t)
  {
    IntTrimPadded(w1, t, w2);
    IntTrimmed(t);
    ParseSameTrim(w1 + t + w2, t);
  }

  /** `int()` reads a decimal numeral whatever ignorable whitespace surrounds it. */
  lemma ParsePaddedNumber(w1: string, n: nat, w2: string)
    requires AllIntSpace(w1) && AllIntSpace(w2)
    ensures ParseInt(w1 + Decimal(n) + w2) == Some(n)
  {
    var d := Decimal(n);
    ParseDecimal(n);
    assert IsDigit(d[0]) && IsDigit(d[|d| - 1]);
    ParseTrimmedPadded(w1, d, w2);
  }

  /** `int()` reads a negated decimal numeral whatever ignorable whitespace surrounds it. */
  lemma ParsePaddedNegative(w1: string, n: nat, w2: string)
    requires AllIntSpace(w1) && AllIntSpace(w2)
    ensures ParseInt(w1 + "-" + Decimal(n) + w2) == Some(0 - n)
  {
    var d := Decimal(n);
    var m := "-" + d;
    Regroup(w1, "-", d, w2);
    ParseDecimal(n);
    assert m[0] == '-' && m[|m| - 1] == d[|d| - 1] && IsDigit(d[|d| - 1]);
    ParseTrimmedPadded(w1, m, w2);
  }

  lemma Regroup(a: string, b: string, c: string, e: string)
    ensures a + b + c + e == a + (b + c) + e
  {
  }

  /** `int()` reads a decimal numeral, with or without a minus sign, whatever ignorable
      whitespace surrounds it. */
  lemma ParsePadded(w1: string, n: nat, w2: string)
    requires AllIntSpace(w1) && AllIntSpace(w2)
    ensures ParseInt(w1 + Decimal(n) + w2) == Some(n)
    ensures ParseInt(w1 + "-" + Decimal(n) + w2) == Some(0 - n)
  {
    ParsePaddedNumber(w1, n, w2);
    ParsePaddedNegative(w1, n, w2);
  }

  // ---- select_topic ----

  /** `topics_data['core_topics']`, with an absent key read as an empty list. */
  function CoreTopics<T>(data: map<string, seq<T>>): seq<T> {
    if CoreTopicsKey in data then data[CoreTopicsKey] else []
  }

  /** `random.randint(0, len(topics) - 1)` can only give an index of the list. */
  predicate ValidDraw<T>(data: map<string, seq<T>>, draw: nat) {
    CoreTopics(data) != [] ==> draw < |CoreTopics(data)|
  }

  /** An answer that asks for a random topic. */
  predicate AsksRandom(choice: string) {
    Lower(choice) == "r"
  }

  /** The topic index an answer picks: none for `r` or `R`, and otherwise the number `int()`
      reads, less one, when that number is from 1 to `count`. */
  function Picked(choice: string, count: nat): (r: Option<nat>)
    ensures r.Some? ==> r.value < count
  {
    if AsksRandom(choice) then None
    else match ParseInt(choice)
      case Some(k) => if 0 <= k - 1 < count then Some(k - 1) else None
      case None => None
  }

  /** `select_topic`: `None` stands for the empty dict returned when there is no topic. The
      topic the answer picks, if it picks one; the randomly drawn one otherwise. */
  function SelectTopic<T>(data: map<string, seq<T>>, choice: string, draw: nat): (r: Option<T>)
    requires ValidDraw(data, draw)
    ensures r.None? <==> CoreTopics(data) == []
    ensures r.Some? ==> r.value in CoreTopics(data)
  {
    var topics := CoreTopics(data);
    if topics == [] then None
    else match Picked(choice, |topics|)
      case Some(i) => Some(topics[i])
      case None => Some(topics[draw])
  }

  /** The branches of `select_topic` one by one: `r` draws; a number from 1 to n picks that
      topic; a number outside that range draws; an answer that is not a number draws. */
  lemma SelectCases<T>(data: map<string, seq<T>>, choice: string, draw: nat)
    requires ValidDraw(data, draw)
    requires CoreTopics(data) != []
    ensures AsksRandom(choice) ==> SelectTopic(data, choice, draw) == Some(CoreTopics(data)[draw])
    ensures !AsksRandom(choice) && ParseInt(choice).Some? && 1 <= ParseInt(choice).value <= |CoreTopics(data)| ==>
              SelectTopic(data, choice, draw) == Some(CoreTopics(data)[ParseInt(choice).value - 1])
    ensures !AsksRandom(choice) && ParseInt(choice).Some? && !(1 <= ParseInt(choice).value <= |CoreTopics(data)|) ==>
              SelectTopic(data, choice, draw) == Some(CoreTopics(data)[draw])
    ensures !AsksRandom(choice) && ParseInt(choice).None? ==>
              SelectTopic(data, choice, draw) == Some(CoreTopics(data)[draw])
  {
  }

  /** Exactly `r` and `R` ask for a random topic. */
  lemma AsksRandomExactly(choice: string)
    ensures AsksRandom(choice) <==> choice == "r" || choice == "R"
  {
    if AsksRandom(choice) {
      assert |choice| == 1;
      assert LowerChar(choice[0]) == 'r';
    }
    if choice == "R" {
      assert Lower(choice) == [LowerChar('R')];
    }
  }

  /** Typing the decimal number `k` of a topic selects the `k`-th topic. */
  lemma SelectByNumber<T>(data: map<string, seq<T>>, k: nat, draw: nat)
    requires ValidDraw(data, draw)
    requires 1 <= k <= |CoreTopics(data)|
    ensures SelectTopic(data, Decimal(k), draw) == Some(CoreTopics(data)[k - 1])
  {
    var d := Decimal(k);
    ParseDecimal(k);
    assert !AsksRandom(d) by {
      assert Lower(d)[0] == LowerChar(d[0]) && IsDigit(d[0]);
    }
  }

  /** A number outside `1..count` selects the drawn topic, as an answer that is not a number
      does. */
  lemma SelectOutOfRange<T>(data: map<string, seq<T>>, k: nat, draw: nat)
    requires ValidDraw(data, draw)
    requires CoreTopics(data) != [] && (k == 0 || k > |CoreTopics(data)|)
    ensures SelectTopic(data, Decimal(k), draw) == Some(CoreTopics(data)[draw])
  {
    var d := Decimal(k);
    ParseDecimal(k);
    assert !AsksRandom(d) by {
      assert Lower(d)[0] == LowerChar(d[0]) && IsDigit(d[0]);
    }
  }

  /** A negative number, or minus zero, never picks a topic: the drawn one is selected. */
  lemma SelectNegative<T>(data: map<string, seq<T>>, k: nat, draw: nat)
    requires ValidDraw(data, draw)
    requires CoreTopics(data) != []
    ensures SelectTopic(data, "-" + Decimal(k), draw) == Some(CoreTopics(data)[draw])
  {
    ParseDecimal(k);
    assert !AsksRandom("-" + Decimal(k)) by {
      assert |"-" + Decimal(k)| >= 2;
    }
  }

  // ---- the prompt's word count ----

  /** `word_count = duration_minutes * 150`: a whole number of minutes' worth of words, from
      which the duration is read back by dividing. */
  function WordCount(durationMinutes: int): (r: int)
    ensures r % WordsPerMinute == 0 && r / WordsPerMinute == durationMinutes
  {
    durationMinutes * WordsPerMinute
  }

  // ---- read_json_file ----

  /** `file_path.replace('.json', '.txt')`: a path without `.json` is its own fallback, so
      the same file is read again as text. */
  function FallbackPath(path: string): (r: string)
    ensures !Contains(path, JsonSuffix) ==> r == path
  {
    // Both branches compute the same `replace`; the second only calls `ReplaceAbsent` to
    // prove the postcondition.
    if Contains(path, JsonSuffix) then ReplaceAll(path, JsonSuffix, TextSuffix)
    else ReplaceAbsent(path, JsonSuffix, TextSuffix); ReplaceAll(path, JsonSuffix, TextSuffix)
  }

  /** `read_json_file`: the JSON file if it loads; otherwise the text file at the fallback path,
      if it exists and its text parses as JSON; otherwise `None`, standing for the empty dict.
      `load` is opening and decoding the file, `isFile` is `os.path.exists`, `readText` is
      `read_text_file` (which gives the empty string when it cannot read) and `parse` is
      `json.loads`. */
  function ReadJsonFile<D>(path: string, load: string -> Option<D>, isFile: string -> bool,
                           readText: string -> string, parse: string -> Option<D>): (r: Option<D>)
    ensures load(path).Some? ==> r == load(path)
    ensures r.Some? ==> r == load(path) || (isFile(FallbackPath(path)) && r == parse(readText(FallbackPath(path))))
    ensures load(path).None? && isFile(FallbackPath(path)) ==> r == parse(readText(FallbackPath(path)))
    ensures load(path).None? && !isFile(FallbackPath(path)) ==> r.None?
  {
    match load(path)
    case Some(data) => Some(data)
    case None =>
      var txtPath := FallbackPath(path);
      if isFile(txtPath) then parse(readText(txtPath)) else None
  }

  /** `.json` has one dot, at its start, so no proper suffix of it is also a prefix. */
  lemma JsonBorderless()
    ensures Borderless(JsonSuffix)
  {
    forall k | 0 < k < |JsonSuffix|
      ensures JsonSuffix[..k] != JsonSuffix[|JsonSuffix| - k..]
    {
      assert JsonSuffix[..k][0] == '.' != JsonSuffix[|JsonSuffix| - k..][0];
    }
  }

  /** Every `.json` in a path is replaced: the path made of `.json`-free parts joined by
      `.json` falls back to the same parts joined by `.txt`. */
  lemma FallbackOfJoin(parts: seq<string>)
    requires forall i :: 0 <= i < |parts| ==> !Contains(parts[i], JsonSuffix)
    ensures FallbackPath(JoinWith(parts, JsonSuffix)) == JoinWith(parts, TextSuffix)
  {
    JsonBorderless();
    ReplaceJoints(parts, JsonSuffix, TextSuffix);
  }

  /** A path that ends in its only `.json` falls back to the same path ending in `.txt`. */
  lemma FallbackOfJsonPath(base: string)
    requires !Contains(base, JsonSuffix)
    ensures FallbackPath(base + JsonSuffix) == base + TextSuffix
  {
    var parts := [base, ""];
    assert !Contains("", JsonSuffix);
    FallbackOfJoin(parts);
    assert JoinWith(parts, JsonSuffix) == base + JsonSuffix + "" == base + JsonSuffix;
    assert JoinWith(parts, TextSuffix) == base + TextSuffix + "" == base + TextSuffix;
  }

  /** When `name.json` cannot be loaded, the document comes from `name.txt`, provided that file
      exists and the name has no other `.json` in it. */
  lemma ReadJsonFromText<D>(base: string, load: string -> Option<D>, isFile: string -> bool,
                            readText: string -> string, parse: string -> Option<D>)
    requires !Contains(base, JsonSuffix)
    requires load(base + JsonSuffix).None? && isFile(base + TextSuffix)
    ensures ReadJsonFile(base + JsonSuffix, load, isFile, readText, parse) == parse(readText(base + TextSuffix))
  {
    FallbackOfJsonPath(base);
  }
}
