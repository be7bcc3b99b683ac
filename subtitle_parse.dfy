/**
 * parseSubtitleText of application/src/composables/useSubtitle.js: turns markup such as
 * "<1.0>Hello <2.5>World" into timed entries. The regular expression /<([0-9.]+)>([^<]*)/g is
 * replaced by a scanner that matches exactly what it matches.
 */
module SubtitleParse {
  import opened EntrySort

  datatype Option<T> = None | Some(value: T)

  predicate IsDigit(c: char) { '0' <= c <= '9' }
  /** The character class [0-9.] of the timestamp token. */
  predicate IsTimeChar(c: char) { IsDigit(c) || c == '.' }
  /** The character class [^<] of a fragment. */
  predicate IsFragmentChar(c: char) { c != '<' }
  /** The whitespace that trim() removes, restricted to space, tab, line feed and carriage return. */
  predicate IsWhitespace(c: char) { c == ' ' || c == '\t' || c == '\n' || c == '\r' }

  /** The character classes the scanner and trim() run over. */
  datatype CharClass = Digits | TimeChars | FragmentChars | Spaces

  predicate In(c: char, cls: CharClass)
  {
    match cls
    case Digits => IsDigit(c)
    case TimeChars => IsTimeChar(c)
    case FragmentChars => IsFragmentChar(c)
    case Spaces => IsWhitespace(c)
  }

  /** End of the longest run of characters of class `p` starting at `i` (a greedy `p*`). */
  function RunEnd(s: string, i: nat, p: CharClass): (j: nat)
    requires i <= |s|
    ensures i <= j <= |s|
    ensures j == |s| || !In(s[j], p)
    decreases |s| - i
  {
    if i < |s| && In(s[i], p) then RunEnd(s, i + 1, p) else i
  }

  /** Every character of the run is of class `p`. */
  lemma {:induction false} RunEndAll(s: string, i: nat, p: CharClass)
    requires i <= |s|
    ensures forall k :: i <= k < RunEnd(s, i, p) ==> In(s[k], p)
    decreases |s| - i
  {
    if i < |s| && In(s[i], p) {
      RunEndAll(s, i + 1, p);
    }
  }

  /** A maximal run is the greedy one: any `j` with the three properties above is RunEnd. */
  lemma {:induction false} RunEndUnique(s: string, i: nat, p: CharClass, j: nat)
    requires i <= j <= |s|
    requires forall k :: i <= k < j ==> In(s[k], p)
    requires j == |s| || !In(s[j], p)
    ensures RunEnd(s, i, p) == j
    decreases |s| - i
  {
    if i < |s| && In(s[i], p) {
      RunEndUnique(s, i + 1, p, j);
    }
  }

  /** The number written by the characters s[i..j], read as decimal digits. */
  function DigitsValue(s: string, i: nat, j: nat): int
    requires i <= j <= |s|
    decreases j
  {
    if j == i then 0 else DigitsValue(s, i, j - 1) * 10 + (s[j - 1] as int - '0' as int)
  }

  function Pow10(n: nat): (r: nat)
    ensures r >= 1
  {
    if n == 0 then 1 else 10 * Pow10(n - 1)
  }

  /**
   * parseFloat on the tokens the pattern captures, which hold [0-9.] only: the value of the
   * longest decimal literal at the start of `token` ("1.2.3" reads as 1.2, "7." as 7); None where
   * JavaScript yields NaN, i.e. no digit before or right after the first point. Signs, exponents
   * and leading whitespace, which parseFloat also reads, never reach it.
   */
  function ParseFloat(token: string): Option<real>
  {
    var n := RunEnd(token, 0, Digits);
    if n < |token| && token[n] == '.' then
      var m := RunEnd(token, n + 1, Digits);
      if n == 0 && m == n + 1 then None
      else Some(DigitsValue(token, 0, n) as real + DigitsValue(token, n + 1, m) as real / Pow10(m - n - 1) as real)
    else if n == 0 then None
    else Some(DigitsValue(token, 0, n) as real)
  }

  /**
   * A token that starts with the digits token[..n], a point and the digits token[n + 1..m],
   * followed by anything but a digit, is read as that decimal, whatever follows.
   */
  lemma {:induction false} ParseFloatDecimal(token: string, n: nat, m: nat)
    requires n < m <= |token| && token[n] == '.' && (n > 0 || m > n + 1)
    requires forall k :: 0 <= k < n ==> IsDigit(token[k])
    requires forall k :: n < k < m ==> IsDigit(token[k])
    requires m == |token| || !IsDigit(token[m])
    ensures ParseFloat(token) ==
      Some(DigitsValue(token, 0, n) as real + DigitsValue(token, n + 1, m) as real / Pow10(m - n - 1) as real)
  {
    RunEndUnique(token, 0, Digits, n);
    RunEndUnique(token, n + 1, Digits, m);
  }

  /** A token that starts with the digits token[..n], followed by anything but [0-9.], is read as that whole number. */
  lemma {:induction false} ParseFloatInteger(token: string, n: nat)
    requires 0 < n <= |token|
    requires forall k :: 0 <= k < n ==> IsDigit(token[k])
    requires n == |token| || !IsTimeChar(token[n])
    ensures ParseFloat(token) == Some(DigitsValue(token, 0, n) as real)
  {
    RunEndUnique(token, 0, Digits, n);
  }

  /** parseFloat yields NaN exactly when no digit starts the token or follows its leading point. */
  lemma {:induction false} ParseFloatNaN(token: string)
    ensures ParseFloat(token).None? <==>
      !(|token| > 0 && IsDigit(token[0])) && !(|token| > 1 && token[0] == '.' && IsDigit(token[1]))
  {
  }

  /** A match of the tag pattern: '<' at `start`, '>' at `close`, then the fragment `content`. */
  datatype Tag = Tag(start: nat, close: nat, t: real, content: string)
  {
    /** Where the match ends: the next '<' or the end of the text. */
    function End(): nat { close + 1 + |content| }
  }

  /** `g` is a match of <([0-9.]+)>([^<]*) in `text`, with its timestamp read by parseFloat. */
  ghost predicate IsTagAt(text: string, g: Tag)
  {
    g.start + 1 < g.close < |text| && g.End() <= |text| &&
    text[g.start] == '<' &&
    (forall k :: g.start < k < g.close ==> IsTimeChar(text[k])) &&
    text[g.close] == '>' &&
    ParseFloat(text[g.start + 1..g.close]) == Some(g.t) &&
    text[g.close + 1..g.End()] == g.content &&
    (forall k :: g.close < k < g.End() ==> IsFragmentChar(text[k])) &&
    (g.End() == |text| || text[g.End()] == '<')
  }

  /** One attempt of the regular expression at position `i`. */
  function TagAt(text: string, i: nat): (r: Option<Tag>)
    requires i < |text|
    ensures r.Some? ==> r.value.start == i < r.value.End() <= |text|
  {
    if text[i] != '<' then None
    else
      var close := RunEnd(text, i + 1, TimeChars);
      if close == i + 1 || close == |text| || text[close] != '>' then None
      else
        match ParseFloat(text[i + 1..close])
        case None => None
        case Some(v) =>
          var fragEnd := RunEnd(text, close + 1, FragmentChars);
          var g := Tag(i, close, v, text[close + 1..fragEnd]);
          assert g.End() == fragEnd;
          Some(g)
  }

  /** What the scanner's verdict at `i` is made of: its two runs and the value of the token between them. */
  lemma {:induction false} TagAtRuns(text: string, i: nat)
    requires i < |text| && TagAt(text, i).Some?
    ensures var g := TagAt(text, i).value;
      g.start == i && g.start + 1 < g.close < |text| && text[g.start] == '<' && text[g.close] == '>' &&
      RunEnd(text, g.start + 1, TimeChars) == g.close && ParseFloat(text[g.start + 1..g.close]) == Some(g.t) &&
      g.End() <= |text| && RunEnd(text, g.close + 1, FragmentChars) == g.End() &&
      text[g.close + 1..g.End()] == g.content
  {
  }

  /** What the scanner finds is a match of the pattern at that position. */
  lemma {:induction false} TagAtSound(text: string, i: nat)
    requires i < |text|
    ensures TagAt(text, i).Some? ==> TagAt(text, i).value.start == i && IsTagAt(text, TagAt(text, i).value)
  {
    if TagAt(text, i).Some? {
      var g := TagAt(text, i).value;
      TagAtRuns(text, i);
      RunEndAll(text, i + 1, TimeChars);
      RunEndAll(text, g.close + 1, FragmentChars);
    }
  }

  /** The scanner's verdict at the start of `g`, given where its two runs end and what the token reads as. */
  lemma {:induction false} TagAtOfRuns(text: string, g: Tag)
    requires g.start + 1 < g.close < |text| && text[g.start] == '<' && text[g.close] == '>'
    requires RunEnd(text, g.start + 1, TimeChars) == g.close && ParseFloat(text[g.start + 1..g.close]) == Some(g.t)
    requires g.End() <= |text| && RunEnd(text, g.close + 1, FragmentChars) == g.End()
    requires text[g.close + 1..g.End()] == g.content
    ensures TagAt(text, g.start) == Some(g)
  {
  }

  /** Every match the pattern admits at a position is the one the scanner finds there. */
  lemma {:induction false} TagAtComplete(text: string, g: Tag)
    requires IsTagAt(text, g)
    ensures TagAt(text, g.start) == Some(g)
  {
    RunEndUnique(text, g.start + 1, TimeChars, g.close);
    RunEndUnique(text, g.close + 1, FragmentChars, g.End());
    TagAtOfRuns(text, g);
  }

  /** A well-formed timestamp token: the characters [0-9.] only, with the value `v` for parseFloat. */
  predicate IsTimestamp(token: string, v: real)
  {
    token != [] && (forall k :: 0 <= k < |token| ==> IsTimeChar(token[k])) && ParseFloat(token) == Some(v)
  }

  /** A possible fragment: no '<'. */
  predicate IsFragment(f: string)
  {
    forall k :: 0 <= k < |f| ==> IsFragmentChar(f[k])
  }

  /** A fragment that holds neither tag bracket. */
  predicate IsPlainFragment(f: string)
  {
    IsFragment(f) && forall k :: 0 <= k < |f| ==> f[k] != '>'
  }

  /** `w` occurs in `text` at position `i`. */
  predicate At(text: string, i: nat, w: string)
  {
    i + |w| <= |text| && text[i..i + |w|] == w
  }

  /** The markup of one tag and its fragment. */
  function TagText(token: string, fragment: string): string
  {
    "<" + token + ">" + fragment
  }

  /** Where the timestamp token and the fragment sit in the markup of one tag. */
  lemma {:induction false} TagTextParts(token: string, fragment: string)
    ensures var w := TagText(token, fragment);
      |w| == |token| + |fragment| + 2 && w[0] == '<' && w[|token| + 1] == '>' &&
      w[1..|token| + 1] == token && w[|token| + 2..] == fragment
  {
  }

  /** A slice of a window of `text` is the corresponding slice of `text`. */
  lemma {:induction false} SubSlice(text: string, i: nat, w: string, a: nat, b: nat)
    requires At(text, i, w) && a <= b <= |w|
    ensures text[i + a..i + b] == w[a..b]
  {
    forall k | 0 <= k < b - a ensures text[i + a..i + b][k] == w[a..b][k] {
      assert text[i..i + |w|][a + k] == text[i + a + k];
    }
  }

  /** Both halves of a concatenation are windows of it. */
  lemma {:induction false} AppendWindows(a: string, b: string)
    ensures At(a + b, 0, a) && At(a + b, |a|, b)
  {
  }

  /**
   * The markup of a timestamp tag and its fragment, found at `i` and followed by the end of
   * the text or a '<', is matched there as such.
   */
  lemma {:induction false} TagInside(text: string, i: nat, token: string, content: string, v: real)
    requires IsTimestamp(token, v) && IsFragment(content) && At(text, i, TagText(token, content))
    requires i + |TagText(token, content)| == |text| || text[i + |TagText(token, content)|] == '<'
    ensures TagAt(text, i) == Some(Tag(i, i + 1 + |token|, v, content))
  {
    var w := TagText(token, content);
    var g := Tag(i, i + 1 + |token|, v, content);
    TagTextParts(token, content);
    SubSlice(text, i, w, 1, |token| + 1);
    SubSlice(text, i, w, |token| + 2, |w|);
    assert text[g.start] == '<' && text[g.close] == '>' by {
      assert text[i..i + |w|][0] == w[0] && text[i..i + |w|][|token| + 1] == w[|token| + 1];
    }
    forall k | g.start < k < g.close ensures IsTimeChar(text[k]) {
      assert text[k] == text[g.start + 1..g.close][k - g.start - 1];
    }
    forall k | g.close < k < g.End() ensures IsFragmentChar(text[k]) {
      assert text[k] == text[g.close + 1..g.End()][k - g.close - 1];
    }
    assert IsTagAt(text, g);
    TagAtComplete(text, g);
  }

  /** The matches found by repeated exec() calls from position `i` on, in order. */
  function TagsFrom(text: string, i: nat): seq<Tag>
    requires i <= |text|
    decreases |text| - i
  {
    if i == |text| then []
    else
      match TagAt(text, i)
      case Some(g) => [g] + TagsFrom(text, g.End())
      case None => TagsFrom(text, i + 1)
  }

  lemma {:induction false} TagsFromMatch(text: string, i: nat, g: Tag)
    requires i < |text| && TagAt(text, i) == Some(g)
    ensures TagsFrom(text, i) == [g] + TagsFrom(text, g.End())
  {
  }

  lemma {:induction false} TagsFromEnd(text: string)
    ensures TagsFrom(text, |text|) == []
  {
  }

  /** Each match found from `i` on is a real match of the pattern that starts at or after `i`. */
  lemma {:induction false} TagsFromSound(text: string, i: nat)
    requires i <= |text|
    ensures forall g | g in TagsFrom(text, i) :: i <= g.start && IsTagAt(text, g)
    decreases |text| - i
  {
    if i < |text| {
      match TagAt(text, i)
      case Some(g) =>
        TagAtSound(text, i);
        TagsFromSound(text, g.End());
        assert TagsFrom(text, i) == [g] + TagsFrom(text, g.End());
      case None =>
        TagsFromSound(text, i + 1);
    }
  }

  /** Where the two runs of the scanner's match at `i` end. */
  lemma {:induction false} TagAtRunEnds(text: string, i: nat, f: Tag)
    requires i < |text| && TagAt(text, i) == Some(f)
    ensures f.start == i && text[f.close] == '>'
    ensures RunEnd(text, i + 1, TimeChars) == f.close && RunEnd(text, f.close + 1, FragmentChars) == f.End()
  {
    TagAtRuns(text, i);
  }

  /** The match the scanner finds at `i` holds no '<' after its first character. */
  lemma {:induction false} TagAtSkips(text: string, i: nat, f: Tag, j: nat)
    requires i < j < |text| && TagAt(text, i) == Some(f) && text[j] == '<'
    ensures f.End() <= j
  {
    TagAtRunEnds(text, i, f);
    RunEndAll(text, i + 1, TimeChars);
    RunEndAll(text, f.close + 1, FragmentChars);
  }

  /** Every match of the pattern that starts at or after `i` is found by the scan from `i`. */
  lemma {:induction false} TagsFromComplete(text: string, i: nat, g: Tag)
    requires i <= g.start && IsTagAt(text, g)
    ensures g in TagsFrom(text, i)
    decreases |text| - i
  {
    if i == g.start {
      TagAtComplete(text, g);
      TagsFromMatch(text, i, g);
    } else {
      match TagAt(text, i)
      case Some(f) =>
        TagAtSkips(text, i, f, g.start);
        TagsFromComplete(text, f.End(), g);
        TagsFromMatch(text, i, f);
      case None =>
        TagsFromComplete(text, i + 1, g);
    }
  }

  /** The scan of the whole text finds exactly the matches of the pattern. */
  lemma {:induction false} TagsFromExactly(text: string, g: Tag)
    ensures g in TagsFrom(text, 0) <==> IsTagAt(text, g)
  {
    TagsFromSound(text, 0);
    if IsTagAt(text, g) {
      TagsFromComplete(text, 0, g);
    }
  }

  /** Matches follow each other in the text without overlapping. */
  lemma {:induction false} TagsFromOrdered(text: string, i: nat)
    requires i <= |text|
    ensures forall k :: 0 <= k < |TagsFrom(text, i)| - 1 ==> TagsFrom(text, i)[k].End() <= TagsFrom(text, i)[k + 1].start
    decreases |text| - i
  {
    if i < |text| {
      match TagAt(text, i)
      case Some(g) =>
        var rest := TagsFrom(text, g.End());
        TagsFromOrdered(text, g.End());
        TagsFromSound(text, g.End());
        assert TagsFrom(text, i) == [g] + rest;
        if rest != [] {
          assert rest[0] in rest;
        }
      case None =>
        TagsFromOrdered(text, i + 1);
    }
  }

  /** The fragments of the non-empty matches, in scan order; empty fragments contribute nothing. */
  function Fragments(tags: seq<Tag>): seq<Entry>
  {
    if tags == [] then []
    else
      var g := tags[|tags| - 1];
      Fragments(tags[..|tags| - 1]) + (if g.content != [] then [Entry(g.t, g.content)] else [])
  }

  lemma {:induction false} FragmentsSnoc(tags: seq<Tag>, g: Tag)
    ensures Fragments(tags + [g]) == Fragments(tags) + (if g.content != [] then [Entry(g.t, g.content)] else [])
  {
    assert (tags + [g])[..|tags|] == tags;
  }

  /** `lastTime` after the scan: the timestamp of the last match (not the largest), 0 if none. */
  function LastTime(tags: seq<Tag>): real
  {
    if tags == [] then 0.0 else tags[|tags| - 1].t
  }

  /** lastIndexOf: the last position of `c` in `s`, or -1. */
  function LastIndexOf(s: string, c: char): (r: int)
    ensures -1 <= r < |s|
    ensures r >= 0 ==> s[r] == c
    ensures forall k :: r < k < |s| ==> s[k] != c
  {
    LastIndexBefore(s, c, |s|)
  }

  /** The last position of `c` in s[..j], or -1. */
  function LastIndexBefore(s: string, c: char, j: nat): (r: int)
    requires j <= |s|
    ensures -1 <= r < j
    ensures r >= 0 ==> s[r] == c
    ensures forall k :: r < k < j ==> s[k] != c
  {
    if j == 0 then -1
    else if s[j - 1] == c then j - 1
    else LastIndexBefore(s, c, j - 1)
  }

  /** Start of the longest run of characters of class `p` that ends at `j`. */
  function RunStart(s: string, j: nat, p: CharClass): (i: nat)
    requires j <= |s|
    ensures i <= j
    ensures forall k :: i <= k < j ==> In(s[k], p)
    ensures i == 0 || !In(s[i - 1], p)
  {
    if j > 0 && In(s[j - 1], p) then RunStart(s, j - 1, p) else j
  }

  /** trim(): `s` without its leading and trailing whitespace. */
  function Trim(s: string): (r: string)
    ensures r == [] || (!IsWhitespace(r[0]) && !IsWhitespace(r[|r| - 1]))
  {
    var a := RunEnd(s, 0, Spaces);
    if a == |s| then []
    else
      var b := RunStart(s, |s|, Spaces);
      assert a < b by { assert !IsWhitespace(s[a]); }
      s[a..b]
  }

  /** trim() removes a whitespace prefix and a whitespace suffix and keeps what lies between. */
  lemma {:induction false} TrimSlice(s: string)
    ensures exists a, b | 0 <= a <= b <= |s| ::
              Trim(s) == s[a..b] &&
              (forall k :: 0 <= k < a ==> IsWhitespace(s[k])) &&
              (forall k :: b <= k < |s| ==> IsWhitespace(s[k]))
  {
    var a := RunEnd(s, 0, Spaces);
    RunEndAll(s, 0, Spaces);
    if a == |s| {
      assert Trim(s) == s[a..a];
    } else {
      var b := RunStart(s, |s|, Spaces);
      assert a < b by { assert !IsWhitespace(s[a]); }
      assert Trim(s) == s[a..b];
    }
  }

  /** A string trims to "" exactly when it is whitespace only. */
  lemma {:induction false} TrimEmpty(s: string)
    ensures Trim(s) == [] <==> forall k :: 0 <= k < |s| ==> IsWhitespace(s[k])
  {
    RunEndAll(s, 0, Spaces);
  }

  /** A string that starts and ends with a non-whitespace character is its own trim. */
  lemma {:induction false} TrimTrimmed(s: string)
    requires s != [] && !IsWhitespace(s[0]) && !IsWhitespace(s[|s| - 1])
    ensures Trim(s) == s
  {
    RunEndUnique(s, 0, Spaces, 0);
    assert RunStart(s, |s|, Spaces) == |s|;
  }

  /**
   * The guard on the text `rest` after the last '>': it must not be blank and its TRIMMED form
   * must differ from the text of the last entry; the entry added keeps `rest` untrimmed.
   */
  function Remainder(rest: string, entries: seq<Entry>, lastTime: real): seq<Entry>
  {
    if Trim(rest) != [] && (entries == [] || entries[|entries| - 1].text != Trim(rest))
    then [Entry(lastTime, rest)]
    else []
  }

  /** The entry for the text after the last '>', if there is such text and it passes the guard. */
  function Leftover(text: string, entries: seq<Entry>, lastTime: real): seq<Entry>
  {
    var lastIndex := LastIndexOf(text, '>');
    if lastIndex != -1 && lastIndex < |text| - 1 then Remainder(text[lastIndex + 1..], entries, lastTime)
    else []
  }

  /** The entry list before the final sort. */
  function Unsorted(text: string): seq<Entry>
  {
    var tags := TagsFrom(text, 0);
    Fragments(tags) + Leftover(text, Fragments(tags), LastTime(tags))
  }

  /** What parseSubtitleText returns. */
  function Parse(text: string): seq<Entry>
  {
    SortByTime(Unsorted(text))
  }

  /** One failed attempt of the scanning loop: the scan goes on at the next character. */
  lemma {:induction false} ScanSkip(text: string, i: nat)
    requires i < |text| && TagAt(text, i).None?
    ensures TagsFrom(text, i) == TagsFrom(text, i + 1)
  {
  }

  /** One match of the scanning loop: it is recorded and the scan resumes where it ends. */
  lemma {:induction false} ScanMatch(text: string, i: nat, done: seq<Tag>)
    requires i < |text| && TagAt(text, i).Some?
    ensures var g := TagAt(text, i).value;
      && done + TagsFrom(text, i) == (done + [g]) + TagsFrom(text, g.End())
      && Fragments(done + [g]) == Fragments(done) + (if g.content != [] then [Entry(g.t, g.content)] else [])
      && LastTime(done + [g]) == g.t
  {
    var g := TagAt(text, i).value;
    var later := TagsFrom(text, g.End());
    assert TagsFrom(text, i) == [g] + later;
    assert done + ([g] + later) == (done + [g]) + later;
    assert (done + [g])[..|done|] == done;
  }

  /**
   * The `while ((match = regex.exec(text)) !== null)` loop of parseSubtitleText: the entries of
   * the non-empty matches and the timestamp of the last match.
   */
  method ScanTags(text: string) returns (result: seq<Entry>, lastTime: real)
    ensures result == Fragments(TagsFrom(text, 0))
    ensures lastTime == LastTime(TagsFrom(text, 0))
  {
    result := [];
    lastTime := 0.0;
    var i := 0;
    ghost var done: seq<Tag> := [];
    while i < |text|
      invariant i <= |text|
      invariant TagsFrom(text, 0) == done + TagsFrom(text, i)
      invariant result == Fragments(done)
      invariant lastTime == LastTime(done)
      decreases |text| - i
    {
      match TagAt(text, i)
      case None =>
        ScanSkip(text, i);
        i := i + 1;
      case Some(g) =>
        ScanMatch(text, i, done);
        // an out-of-order timestamp only draws a warning; it is kept as it is
        lastTime := g.t;
        if g.content != [] {
          result := result + [Entry(g.t, g.content)];
        }
        done := done + [g];
        i := g.End();
    }
    assert done == TagsFrom(text, 0);
  }

  /** parseSubtitleText: the scan, the rule for the text after the last '>', and the sort. */
  method ParseSubtitleText(text: string) returns (result: seq<Entry>)
    ensures result == Parse(text)
    ensures Sorted(result)
  {
    var lastTime;
    result, lastTime := ScanTags(text);
    ghost var scanned := result;
    var lastIndex := LastIndexOf(text, '>');
    if lastIndex != -1 && lastIndex < |text| - 1 {
      var remainingText := text[lastIndex + 1..];
      var trimmed := Trim(remainingText);
      // the guard compares the trimmed remainder, the entry keeps the untrimmed one
      if trimmed != [] && (|result| == 0 || result[|result| - 1].text != trimmed) {
        result := result + [Entry(lastTime, remainingText)];
      }
    }
    assert result == Unsorted(text);
    SortByTimeSorted(result);
    result := SortByTime(result);
  }

  /** Markup without any '>' has no tag and no leftover: it yields no entries at all. */
  lemma {:induction false} NoTagsWithoutClose(text: string, i: nat)
    requires i <= |text|
    requires forall k :: 0 <= k < |text| ==> text[k] != '>'
    ensures TagsFrom(text, i) == []
    decreases |text| - i
  {
    if i < |text| {
      assert TagAt(text, i).None?;
      NoTagsWithoutClose(text, i + 1);
    }
  }

  lemma {:induction false} ParseWithoutClose(text: string)
    requires forall k :: 0 <= k < |text| ==> text[k] != '>'
    ensures TagsFrom(text, 0) == [] && Parse(text) == []
  {
    NoTagsWithoutClose(text, 0);
    assert LastIndexOf(text, '>') == -1;
    assert Unsorted(text) == [];
  }

  lemma {:induction false} ParseEmpty()
    ensures Parse("") == []
  {
    ParseWithoutClose("");
  }

  /** The result is ordered by time, holds the scanned entries exactly, and keeps equal times in scan order. */
  lemma {:induction false} ParseOrdered(text: string)
    ensures Sorted(Parse(text))
    ensures multiset(Parse(text)) == multiset(Unsorted(text))
    ensures forall time :: AtTime(Parse(text), time) == AtTime(Unsorted(text), time)
  {
    SortByTimeSorted(Unsorted(text));
    SortByTimePermutation(Unsorted(text));
    forall time ensures AtTime(Parse(text), time) == AtTime(Unsorted(text), time) {
      SortByTimeStable(Unsorted(text), time);
    }
  }

  /**
   * The scanned entries are exactly the non-empty matches: each carries its own timestamp and
   * fragment, and every non-empty match gives one.
   */
  lemma {:induction false} FragmentsExact(tags: seq<Tag>)
    ensures forall e | e in Fragments(tags) :: e.text != [] && exists g | g in tags :: e == Entry(g.t, g.content)
    ensures forall g | g in tags && g.content != [] :: Entry(g.t, g.content) in Fragments(tags)
    ensures |Fragments(tags)| <= |tags|
  {
    if tags != [] {
      var init := tags[..|tags| - 1];
      FragmentsExact(init);
      assert tags == init + [tags[|tags| - 1]];
      forall e | e in Fragments(tags) ensures e.text != [] && exists g | g in tags :: e == Entry(g.t, g.content) {
        if e in Fragments(init) {
          var g :| g in init && e == Entry(g.t, g.content);
          assert g in tags;
        }
      }
    }
  }

  /**
   * When the text ends inside the last match and that fragment holds no '>', the text after the
   * last '>' is that fragment: it is added again exactly when it is neither blank nor its own trim.
   */
  lemma {:induction false} FinalFragment(text: string)
    requires TagsFrom(text, 0) != []
    requires var g := TagsFrom(text, 0)[|TagsFrom(text, 0)| - 1];
      g.End() == |text| && forall k :: 0 <= k < |g.content| ==> g.content[k] != '>'
    ensures var tags := TagsFrom(text, 0);
      var g := tags[|tags| - 1];
      Unsorted(text) == Fragments(tags) +
        (if Trim(g.content) != [] && Trim(g.content) != g.content then [Entry(g.t, g.content)] else [])
  {
    var tags := TagsFrom(text, 0);
    var g := tags[|tags| - 1];
    var entries := Fragments(tags);
    LastTagOfScan(text);
    FinalTagCloses(text, g);
    assert LastTime(tags) == g.t;
    assert Unsorted(text) == entries + Leftover(text, entries, g.t);
    if g.content != [] {
      assert entries == Fragments(tags[..|tags| - 1]) + [Entry(g.t, g.content)];
    }
    LeftoverOfFinal(text, entries, g);
  }

  /** The leftover rule once the last '>' of the text is known. */
  lemma {:induction false} LeftoverAfter(text: string, close: nat, entries: seq<Entry>, lastTime: real)
    requires close < |text| && LastIndexOf(text, '>') == close
    ensures Leftover(text, entries, lastTime) ==
      if close < |text| - 1 then Remainder(text[close + 1..], entries, lastTime) else []
  {
  }

  /** The leftover of a text that ends with the fragment of its last match, that fragment being the last entry. */
  lemma {:induction false} LeftoverOfFinal(text: string, entries: seq<Entry>, g: Tag)
    requires g.close < |text| && LastIndexOf(text, '>') == g.close
    requires g.End() == |text| && text[g.close + 1..] == g.content
    requires g.content != [] ==> entries != [] && entries[|entries| - 1].text == g.content
    ensures Leftover(text, entries, g.t) ==
      if Trim(g.content) != [] && Trim(g.content) != g.content then [Entry(g.t, g.content)] else []
  {
    LeftoverAfter(text, g.close, entries, g.t);
    if g.content != [] {
      RemainderAfterSameText(g.content, entries, g.t);
    }
  }

  /** The guard when the last entry's text is the remainder itself (the untrimmed comparison case). */
  lemma {:induction false} RemainderAfterSameText(rest: string, entries: seq<Entry>, lastTime: real)
    requires entries != [] && entries[|entries| - 1].text == rest
    ensures Remainder(rest, entries, lastTime) ==
      if Trim(rest) != [] && Trim(rest) != rest then [Entry(lastTime, rest)] else []
  {
  }

  lemma {:induction false} LastTagOfScan(text: string)
    requires TagsFrom(text, 0) != []
    ensures IsTagAt(text, TagsFrom(text, 0)[|TagsFrom(text, 0)| - 1])
  {
    TagsFromSound(text, 0);
    assert TagsFrom(text, 0)[|TagsFrom(text, 0)| - 1] in TagsFrom(text, 0);
  }

  /** A match that runs to the end of the text with no '>' in its fragment holds the last '>'. */
  lemma {:induction false} FinalTagCloses(text: string, g: Tag)
    requires IsTagAt(text, g) && g.End() == |text|
    requires forall k :: 0 <= k < |g.content| ==> g.content[k] != '>'
    ensures LastIndexOf(text, '>') == g.close
    ensures text[g.close + 1..] == g.content
  {
    forall k | g.close < k < |text| ensures text[k] != '>' {
      assert text[k] == g.content[k - g.close - 1];
    }
  }

  /** The scan of one tag and its fragment finds exactly that match. */
  lemma {:induction false} ScanOneTag(token: string, f: string, v: real)
    requires IsTimestamp(token, v) && IsPlainFragment(f)
    ensures TagsFrom(TagText(token, f), 0) == [Tag(0, |token| + 1, v, f)]
  {
    var text := TagText(token, f);
    var g := Tag(0, |token| + 1, v, f);
    TagInside(text, 0, token, f, v);
    TagsFromMatch(text, 0, g);
    TagsFromEnd(text);
  }

  /** The entries of a text whose only match runs to its end. */
  lemma {:induction false} UnsortedOfOne(text: string, g: Tag)
    requires TagsFrom(text, 0) == [g] && g.End() == |text|
    requires forall k :: 0 <= k < |g.content| ==> g.content[k] != '>'
    ensures Unsorted(text) == (if g.content != [] then [Entry(g.t, g.content)] else []) +
      (if Trim(g.content) != [] && Trim(g.content) != g.content then [Entry(g.t, g.content)] else [])
  {
    FinalFragment(text);
    FragmentsSnoc([], g);
    assert [] + [g] == [g];
  }

  /**
   * One tag and its fragment: the fragment is the entry, and it is added a second time exactly
   * when it is not blank and differs from its own trim (leading or trailing whitespace).
   */
  lemma {:induction false} OneTag(token: string, f: string, v: real)
    requires IsTimestamp(token, v) && IsPlainFragment(f)
    ensures var text := TagText(token, f);
      TagsFrom(text, 0) == [Tag(0, |token| + 1, v, f)] &&
      Unsorted(text) == (if f != [] then [Entry(v, f)] else []) +
        (if Trim(f) != [] && Trim(f) != f then [Entry(v, f)] else [])
  {
    ScanOneTag(token, f, v);
    UnsortedOfOne(TagText(token, f), Tag(0, |token| + 1, v, f));
  }

  /** In two tags with their fragments, the second match is found where the first one ends. */
  lemma {:induction false} ScanSecondTag(first: string, tok2: string, f2: string, v2: real)
    requires IsTimestamp(tok2, v2) && IsPlainFragment(f2)
    ensures TagsFrom(first + TagText(tok2, f2), |first|) == [Tag(|first|, |first| + 1 + |tok2|, v2, f2)]
  {
    var text := first + TagText(tok2, f2);
    var g2 := Tag(|first|, |first| + 1 + |tok2|, v2, f2);
    AppendWindows(first, TagText(tok2, f2));
    TagInside(text, |first|, tok2, f2, v2);
    TagsFromMatch(text, |first|, g2);
    TagsFromEnd(text);
  }

  /** In two tags with their fragments, the first match is found at the start. */
  lemma {:induction false} ScanFirstTag(tok1: string, f1: string, second: string, v1: real)
    requires IsTimestamp(tok1, v1) && IsFragment(f1)
    requires second != [] && second[0] == '<'
    ensures var text := TagText(tok1, f1) + second; var g1 := Tag(0, |tok1| + 1, v1, f1);
      TagsFrom(text, 0) == [g1] + TagsFrom(text, g1.End())
  {
    AppendWindows(TagText(tok1, f1), second);
    TagInside(TagText(tok1, f1) + second, 0, tok1, f1, v1);
    TagsFromMatch(TagText(tok1, f1) + second, 0, Tag(0, |tok1| + 1, v1, f1));
  }

  /** The entries of a text with two matches, both non-empty, the last one trimmed and at the end. */
  lemma {:induction false} UnsortedOfTwo(text: string, g1: Tag, g2: Tag)
    requires TagsFrom(text, 0) == [g1, g2] && g2.End() == |text|
    requires forall k :: 0 <= k < |g2.content| ==> g2.content[k] != '>'
    requires g1.content != [] && g2.content != [] && Trim(g2.content) == g2.content
    ensures Unsorted(text) == [Entry(g1.t, g1.content), Entry(g2.t, g2.content)]
  {
    FinalFragment(text);
    FragmentsOfTwo(g1, g2);
  }

  lemma {:induction false} FragmentsOfTwo(g1: Tag, g2: Tag)
    requires g1.content != [] && g2.content != []
    ensures Fragments([g1, g2]) == [Entry(g1.t, g1.content), Entry(g2.t, g2.content)]
  {
    assert [] + [g1] == [g1];
    FragmentsSnoc([], g1);
    assert Fragments([g1]) == [Entry(g1.t, g1.content)];
    assert [g1] + [g2] == [g1, g2];
    FragmentsSnoc([g1], g2);
  }

  /**
   * Two tags, each with a non-empty fragment, the last one already trimmed and free of '>':
   * exactly two entries,
   * each with its own timestamp (a smaller second timestamp is not raised to the first), ordered
   * by the sort.
   */
  lemma {:induction false} TwoTags(tok1: string, f1: string, tok2: string, f2: string, v1: real, v2: real)
    requires IsTimestamp(tok1, v1) && IsTimestamp(tok2, v2)
    requires IsFragment(f1) && IsPlainFragment(f2)
    requires f1 != [] && f2 != [] && Trim(f2) == f2
    ensures var text := TagText(tok1, f1) + TagText(tok2, f2);
      Unsorted(text) == [Entry(v1, f1), Entry(v2, f2)] &&
      Parse(text) == if v1 <= v2 then [Entry(v1, f1), Entry(v2, f2)] else [Entry(v2, f2), Entry(v1, f1)]
  {
    var first := TagText(tok1, f1);
    var text := first + TagText(tok2, f2);
    var g1 := Tag(0, |tok1| + 1, v1, f1);
    var g2 := Tag(|first|, |first| + 1 + |tok2|, v2, f2);
    ScanSecondTag(first, tok2, f2, v2);
    ScanFirstTag(tok1, f1, TagText(tok2, f2), v1);
    assert TagsFrom(text, 0) == [g1, g2];
    UnsortedOfTwo(text, g1, g2);
    SortPair(Entry(v1, f1), Entry(v2, f2));
  }

  /** A digit, a point and a digit, such as "2.5", is a timestamp worth their decimal value. */
  lemma {:induction false} OneDecimalValue(d: char, f: char)
    requires IsDigit(d) && IsDigit(f)
    ensures ParseFloat([d, '.', f]) == Some((d as int - '0' as int) as real + (f as int - '0' as int) as real / 10.0)
  {
    var token := [d, '.', f];
    var whole := d as int - '0' as int;
    var frac := f as int - '0' as int;
    assert DigitsValue(token, 0, 1) == whole by {
      assert DigitsValue(token, 0, 0) == 0;
    }
    assert DigitsValue(token, 2, 3) == frac by {
      assert DigitsValue(token, 2, 2) == 0;
    }
    assert Pow10(1) as real == 10.0 by {
      assert Pow10(0) == 1;
    }
    ParseFloatDecimal(token, 1, 3);
    assert ParseFloat(token) == Some(whole as real + frac as real / Pow10(1) as real);
  }

  /** A digit, a point and a digit form a timestamp with one decimal place. */
  lemma {:induction false} OneDecimalTimestamp(d: char, f: char)
    requires IsDigit(d) && IsDigit(f)
    ensures IsTimestamp([d, '.', f], (d as int - '0' as int) as real + (f as int - '0' as int) as real / 10.0)
  {
    OneDecimalValue(d, f);
  }

  /** "1.0" and "2.5" read as 1.0 and 2.5. */
  lemma {:induction false} HelloWorldTimestamps()
    ensures IsTimestamp("1.0", 1.0) && IsTimestamp("2.5", 2.5)
  {
    OneDecimalTimestamp('1', '0');
    OneDecimalTimestamp('2', '5');
  }

  /** "Hello " and "World" hold no bracket, and "World" is its own trim. */
  lemma {:induction false} HelloWorldFragments()
    ensures IsPlainFragment("Hello ") && IsPlainFragment("World") && Trim("World") == "World"
  {
    TrimTrimmed("World");
  }

  /** The worked example, the markup "<1.0>Hello <2.5>World": exactly two entries, in order. */
  lemma {:induction false} ParseHelloWorld()
    ensures Parse(TagText("1.0", "Hello ") + TagText("2.5", "World")) == [Entry(1.0, "Hello "), Entry(2.5, "World")]
  {
    HelloWorldTimestamps();
    HelloWorldFragments();
    TwoTags("1.0", "Hello ", "2.5", "World", 1.0, 2.5);
  }

  /** The scan of "<1.0>b>c" finds one match, whose fragment is "b>c". */
  lemma {:induction false} BracketTags()
    ensures TagsFrom(TagText("1.0", "b>c"), 0) == [Tag(0, 4, 1.0, "b>c")]
  {
    var text := TagText("1.0", "b>c");
    OneDecimalTimestamp('1', '0');
    assert At(text, 0, text) by { assert text[0..|text|] == text; }
    TagInside(text, 0, "1.0", "b>c", 1.0);
    TagsFromMatch(text, 0, Tag(0, 4, 1.0, "b>c"));
    TagsFromEnd(text);
  }

  /** The text after the last '>' of "<1.0>b>c" is "c", which differs from the entry "b>c". */
  lemma {:induction false} BracketLeftover()
    ensures Leftover(TagText("1.0", "b>c"), [Entry(1.0, "b>c")], 1.0) == [Entry(1.0, "c")]
  {
    var text := TagText("1.0", "b>c");
    assert text == "<1.0>b>c";
    assert text[6] == '>' && text[7] == 'c';
    assert LastIndexOf(text, '>') == 6;
    LeftoverAfter(text, 6, [Entry(1.0, "b>c")], 1.0);
    assert text[7..] == "c";
    TrimTrimmed("c");
  }

  /**
   * A '>' inside the last fragment: the text after it is entered a second time, at the last
   * match's time. "<1.0>b>c" gives "b>c" and then "c".
   */
  lemma {:induction false} BracketInFinalFragment()
    ensures Unsorted(TagText("1.0", "b>c")) == [Entry(1.0, "b>c"), Entry(1.0, "c")]
  {
    var text := TagText("1.0", "b>c");
    var g := Tag(0, 4, 1.0, "b>c");
    BracketTags();
    assert [] + [g] == [g];
    FragmentsSnoc([], g);
    assert Fragments([g]) == [Entry(1.0, "b>c")];
    assert LastTime([g]) == 1.0;
    BracketLeftover();
    assert Unsorted(text) == Fragments([g]) + Leftover(text, Fragments([g]), LastTime([g]));
  }
}
