/**
 * Markup written from a list of cues, and what parseSubtitleText of
 * application/src/composables/useSubtitle.js reads back from it.
 */
module SubtitleMarkup {
  import opened EntrySort
  import opened SubtitleParse

  /** One tag to write: its timestamp token, the value parseFloat reads from it, and its fragment. */
  datatype Cue = Cue(token: string, t: real, text: string)

  /** The markup "<token>text" of every cue, in order. */
  function Markup(cues: seq<Cue>): string
  {
    if cues == [] then "" else TagText(cues[0].token, cues[0].text) + Markup(cues[1..])
  }

  /** The length of the markup of one cue. */
  function Width(c: Cue): nat
  {
    |c.token| + |c.text| + 2
  }

  /** The length of the markup of all cues. */
  function Length(cues: seq<Cue>): nat
  {
    if cues == [] then 0 else Width(cues[0]) + Length(cues[1..])
  }

  /** The match of one cue written at position `offset`. */
  function TagOf(c: Cue, offset: nat): Tag
  {
    Tag(offset, offset + 1 + |c.token|, c.t, c.text)
  }

  /** The matches the scan should find in Markup(cues) written at position `offset`. */
  function TagsOf(cues: seq<Cue>, offset: nat): seq<Tag>
  {
    if cues == [] then [] else [TagOf(cues[0], offset)] + TagsOf(cues[1..], offset + Width(cues[0]))
  }

  /** The entry of each cue, in order. */
  function Entries(cues: seq<Cue>): (r: seq<Entry>)
    ensures |r| == |cues|
    ensures forall k :: 0 <= k < |cues| ==> r[k] == Entry(cues[k].t, cues[k].text)
  {
    if cues == [] then [] else [Entry(cues[0].t, cues[0].text)] + Entries(cues[1..])
  }

  /** A well-formed timestamp and a non-empty fragment without '<'. */
  predicate CueOk(c: Cue)
  {
    IsTimestamp(c.token, c.t) && IsFragment(c.text) && c.text != []
  }

  /** Every cue is well formed. */
  predicate WellFormed(cues: seq<Cue>)
  {
    forall k :: 0 <= k < |cues| ==> CueOk(cues[k])
  }

  lemma {:induction false} WellFormedParts(cues: seq<Cue>)
    requires WellFormed(cues) && cues != []
    ensures CueOk(cues[0]) && WellFormed(cues[1..])
  {
    forall k | 0 <= k < |cues[1..]| ensures CueOk(cues[1..][k]) {
      assert cues[1..][k] == cues[k + 1];
    }
  }

  /** The cues' timestamps never decrease. */
  predicate InTimeOrder(cues: seq<Cue>)
  {
    forall i, j :: 0 <= i < j < |cues| ==> cues[i].t <= cues[j].t
  }

  lemma {:induction false} MarkupStart(cues: seq<Cue>)
    ensures Markup(cues) == [] || Markup(cues)[0] == '<'
  {
    if cues != [] {
      TagTextParts(cues[0].token, cues[0].text);
    }
  }

  lemma {:induction false} MarkupLength(cues: seq<Cue>)
    ensures |Markup(cues)| == Length(cues)
    decreases |cues|
  {
    if cues != [] {
      TagTextParts(cues[0].token, cues[0].text);
      MarkupLength(cues[1..]);
    }
  }

  /** A suffix of `text` that starts with `w`: `w` is a window at `i`, and the rest of the suffix follows it. */
  lemma {:induction false} SuffixSplit(text: string, i: nat, w: string, rest: string)
    requires i <= |text| && text[i..] == w + rest
    ensures At(text, i, w) && text[i + |w|..] == rest
    ensures rest == [] ==> i + |w| == |text|
    ensures rest != [] ==> text[i + |w|] == rest[0]
  {
    assert text[i..i + |w|] == text[i..][..|w|];
    assert text[i + |w|..] == text[i..][|w|..];
    if rest != [] {
      assert text[i + |w|] == text[i..][|w|];
    }
  }

  lemma {:induction false} TagTextWidth(c: Cue)
    ensures |TagText(c.token, c.text)| == Width(c)
  {
  }

  /** The markup of a cue at `i`, followed by the end of the text or a '<', is the match the scanner finds at `i`. */
  lemma {:induction false} ScanTagAt(text: string, i: nat, c: Cue)
    requires IsTimestamp(c.token, c.t) && IsFragment(c.text)
    requires |TagText(c.token, c.text)| == Width(c) && At(text, i, TagText(c.token, c.text))
    requires i + Width(c) == |text| || text[i + Width(c)] == '<'
    ensures i < |text| && TagAt(text, i) == Some(TagOf(c, i)) && TagOf(c, i).End() == i + Width(c)
  {
    TagInside(text, i, c.token, c.text, c.t);
  }

  /** The scan from `i` of a text whose suffix from `i` is Markup(cues) finds exactly the tags of the cues, in order. */
  lemma {:induction false} ScanMarkup(text: string, i: nat, cues: seq<Cue>)
    requires WellFormed(cues)
    requires i <= |text| && text[i..] == Markup(cues)
    ensures TagsFrom(text, i) == TagsOf(cues, i)
    decreases |cues|
  {
    if cues == [] {
      TagsFromEnd(text);
    } else {
      var c := cues[0];
      var w := TagText(c.token, c.text);
      TagTextWidth(c);
      WellFormedParts(cues);
      MarkupStart(cues[1..]);
      SuffixSplit(text, i, w, Markup(cues[1..]));
      ScanTagAt(text, i, c);
      TagsFromMatch(text, i, TagOf(c, i));
      ScanMarkup(text, i + Width(c), cues[1..]);
    }
  }

  /** Fragments read a match at the front the same way as one at the back. */
  lemma {:induction false} FragmentsCons(g: Tag, tags: seq<Tag>)
    ensures Fragments([g] + tags) == (if g.content != [] then [Entry(g.t, g.content)] else []) + Fragments(tags)
    decreases |tags|
  {
    if tags == [] {
      assert [g] + tags == [] + [g];
      FragmentsSnoc([], g);
    } else {
      var init := tags[..|tags| - 1];
      var last := tags[|tags| - 1];
      assert tags == init + [last];
      assert [g] + tags == ([g] + init) + [last];
      FragmentsSnoc([g] + init, last);
      FragmentsCons(g, init);
      FragmentsSnoc(init, last);
    }
  }

  /** Each tag of the cues contributes its cue's entry. */
  lemma {:induction false} FragmentsOfCues(cues: seq<Cue>, offset: nat)
    requires WellFormed(cues)
    ensures Fragments(TagsOf(cues, offset)) == Entries(cues)
    decreases |cues|
  {
    if cues != [] {
      var c := cues[0];
      WellFormedParts(cues);
      FragmentsCons(TagOf(c, offset), TagsOf(cues[1..], offset + Width(c)));
      FragmentsOfCues(cues[1..], offset + Width(c));
    }
  }

  /** The last tag of the cues carries the last cue and ends where the markup ends. */
  lemma {:induction false} LastOfCues(cues: seq<Cue>, offset: nat)
    requires cues != []
    ensures var tags := TagsOf(cues, offset); var c := cues[|cues| - 1];
      tags != [] && tags[|tags| - 1].End() == offset + Length(cues) &&
      tags[|tags| - 1].t == c.t && tags[|tags| - 1].content == c.text
    decreases |cues|
  {
    var rest := TagsOf(cues[1..], offset + Width(cues[0]));
    assert TagsOf(cues, offset) == [TagOf(cues[0], offset)] + rest;
    if |cues| > 1 {
      LastOfCues(cues[1..], offset + Width(cues[0]));
      assert cues[1..][|cues[1..]| - 1] == cues[|cues| - 1];
    } else {
      assert cues[1..] == [];
    }
  }

  /**
   * Round trip: the markup of cues with non-empty fragments free of '<' parses back to the cues'
   * entries before the sort, and to exactly those entries when the timestamps are in order. The
   * last fragment must also hold no '>' and be blank or its own trim. The code itself needs these
   * two restrictions, and only for the last fragment: a '>' there moves the leftover
   * ("<1.0>b>c" also enters "c", see BracketInFinalFragment), and a non-blank untrimmed last
   * fragment is entered twice ("<1.0>Hello " gives two "Hello " entries, see FinalFragment).
   */
  lemma {:induction false} MarkupRoundTrip(cues: seq<Cue>)
    requires WellFormed(cues)
    requires cues != [] ==> IsPlainFragment(cues[|cues| - 1].text)
    requires cues != [] ==> Trim(cues[|cues| - 1].text) == [] || Trim(cues[|cues| - 1].text) == cues[|cues| - 1].text
    ensures Unsorted(Markup(cues)) == Entries(cues)
    ensures InTimeOrder(cues) ==> Parse(Markup(cues)) == Entries(cues)
  {
    var text := Markup(cues);
    if cues == [] {
      ParseEmpty();
    } else {
      ScanMarkup(text, 0, cues);
      LastOfCues(cues, 0);
      MarkupLength(cues);
      FragmentsOfCues(cues, 0);
      FinalFragment(text);
    }
    if InTimeOrder(cues) {
      SortByTimeKeepsSorted(Entries(cues));
    }
  }
}
