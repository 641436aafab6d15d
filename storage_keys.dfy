/**
 * The keys and values the page writes to local storage: the expanded state of
 * each reading-list section, keyed by a slug of its heading, and the state of
 * each goal checkbox, keyed by its position.
 */
module StorageKeys {
  import opened Wrappers
  import opened JsBuiltins

  /** `textContent.trim().toLowerCase().replace(/\s+/g, '-')` of a section's heading. */
  function SectionSlug(heading: string): (r: string)
    ensures NoneIn(r, JsSpace)
    ensures |r| <= |heading|
  {
    ReplaceLeavesNone(Lower(Trim(heading, JsSpace)), JsSpace, '-');
    ReplaceRuns(Lower(Trim(heading, JsSpace)), JsSpace, '-')
  }

  /** Every letter of `s` is already lower case. */
  predicate LowerFixed(s: string) {
    forall i :: 0 <= i < |s| ==> LowerChar(s[i]) == s[i]
  }

  /** A lower-fixed string is its own lower case. */
  lemma LowerOfLowerFixed(s: string)
    requires LowerFixed(s)
    ensures Lower(s) == s
  {
  }

  /** Replacing runs by a lower-case fill keeps a string lower case. */
  lemma {:induction false} ReplaceKeepsLower(s: string, fill: char)
    requires LowerFixed(s) && LowerChar(fill) == fill
    ensures LowerFixed(ReplaceRuns(s, JsSpace, fill))
    decreases |s|
  {
    if s != [] {
      var rest := if s[0] in JsSpace then s[LeadingIn(s, JsSpace)..] else s[1..];
      assert LowerFixed(rest) by {
        forall i | 0 <= i < |rest|
          ensures LowerChar(rest[i]) == rest[i]
        {
          assert rest[i] == s[|s| - |rest| + i];
        }
      }
      ReplaceKeepsLower(rest, fill);
    }
  }

  /** Slugging a slug changes nothing. */
  lemma SlugIdempotent(heading: string)
    ensures SectionSlug(SectionSlug(heading)) == SectionSlug(heading)
  {
    var slug := SectionSlug(heading);
    var lowered := Lower(Trim(heading, JsSpace));
    assert LowerFixed(lowered);
    ReplaceKeepsLower(lowered, '-');
    TrimUntrimmed(slug, JsSpace);
    LowerOfLowerFixed(slug);
    ReplaceNone(slug, JsSpace, '-');
  }

  /** Lower-casing works character by character, so it distributes over concatenation. */
  lemma LowerConcat(x: string, y: string)
    ensures Lower(x + y) == Lower(x) + Lower(y)
  {
  }

  /** Lower-casing keeps a string free of white space, or made of it. */
  lemma LowerSpaceClass(s: string)
    ensures NoneIn(s, JsSpace) ==> NoneIn(Lower(s), JsSpace)
    ensures AllIn(s, JsSpace) ==> AllIn(Lower(s), JsSpace)
  {
    LowerKeepsSpace(s);
  }

  /**
   * Two words with white space between them and around them: the outer white
   * space goes, the inner run becomes a single `-`, and the words are lower-cased.
   */
  lemma SlugOfTwoWords(w1: string, x: string, w: string, y: string, w2: string)
    requires AllIn(w1, JsSpace) && AllIn(w2, JsSpace) && w != [] && AllIn(w, JsSpace)
    requires x != [] && NoneIn(x, JsSpace) && y != [] && NoneIn(y, JsSpace)
    ensures SectionSlug(w1 + x + w + y + w2) == Lower(x) + "-" + Lower(y)
  {
    var inner := x + w + y;
    assert w1 + x + w + y + w2 == w1 + inner + w2;
    assert inner[0] == x[0] && inner[|inner| - 1] == y[|y| - 1];
    TrimAround(w1, inner, w2, JsSpace);
    LowerConcat(x + w, y);
    LowerConcat(x, w);
    LowerSpaceClass(x);
    LowerSpaceClass(w);
    LowerSpaceClass(y);
    ReplaceTwoWords(Lower(x), Lower(w), Lower(y), JsSpace, '-');
  }

  /** A heading of white space only has the empty slug. */
  lemma SlugOfBlank(w: string)
    requires AllIn(w, JsSpace)
    ensures SectionSlug(w) == []
  {
    TrimBlank(w, JsSpace);
  }

  /** A heading of one word, with white space around it, has the lower-cased word as slug. */
  lemma SlugOfOneWord(w1: string, x: string, w2: string)
    requires AllIn(w1, JsSpace) && AllIn(w2, JsSpace)
    requires x != [] && NoneIn(x, JsSpace)
    ensures SectionSlug(w1 + x + w2) == Lower(x)
  {
    TrimAround(w1, x, w2, JsSpace);
    LowerSpaceClass(x);
    ReplaceNone(Lower(x), JsSpace, '-');
  }

  /**
   * A heading that starts (after white space) with a word, then a run of white
   * space, then more words: its slug is the lower-cased word, one `-`, and the
   * slug of the rest. With `SlugOfOneWord` and `SlugOfBlank` this gives the slug
   * of a heading of any number of words.
   */
  lemma SlugOfWords(w0: string, x: string, w: string, rest: string)
    requires AllIn(w0, JsSpace) && w != [] && AllIn(w, JsSpace)
    requires x != [] && NoneIn(x, JsSpace)
    requires rest != [] && rest[0] !in JsSpace
    ensures SectionSlug(w0 + x + w + rest) == Lower(x) + "-" + SectionSlug(rest)
  {
    var t := Trim(rest, JsSpace);
    TrimFromWord(rest, JsSpace);
    var tail := rest[|t|..];
    assert rest == t + tail;
    var inner := x + w + t;
    assert w0 + x + w + rest == w0 + inner + tail;
    assert inner[0] == x[0] && inner[|inner| - 1] == t[|t| - 1];
    TrimAround(w0, inner, tail, JsSpace);
    LowerConcat(x + w, t);
    LowerConcat(x, w);
    LowerSpaceClass(x);
    LowerSpaceClass(w);
    LowerKeepsSpace(t);
    ReplaceWordThenRest(Lower(x), Lower(w), Lower(t), JsSpace, '-');
  }

  /** White space around a heading does not change its slug. */
  lemma SlugIgnoresSurroundingSpace(w1: string, x: string, w2: string)
    requires AllIn(w1, JsSpace) && AllIn(w2, JsSpace)
    requires x != [] && x[0] !in JsSpace && x[|x| - 1] !in JsSpace
    ensures SectionSlug(w1 + x + w2) == SectionSlug(x)
  {
    TrimAround(w1, x, w2, JsSpace);
    TrimUntrimmed(x, JsSpace);
  }

  const SectionPrefix: string := "section_"
  const SectionSuffix: string := "_expanded"

  /** The key `section_<slug>_expanded`. */
  function SectionKey(heading: string): (r: string)
    ensures |r| == |SectionPrefix| + |SectionSlug(heading)| + |SectionSuffix|
    ensures r[..|SectionPrefix|] == SectionPrefix
    ensures r[|r| - |SectionSuffix|..] == SectionSuffix
  {
    var r := SectionPrefix + SectionSlug(heading) + SectionSuffix;
    assert r[..|SectionPrefix|] == SectionPrefix;
    assert r[|r| - |SectionSuffix|..] == SectionSuffix;
    r
  }

  /** The slug read back out of a section key. */
  function SectionSlugOf(key: string): (r: Option<string>)
  {
    if |key| >= |SectionPrefix| + |SectionSuffix|
       && key[..|SectionPrefix|] == SectionPrefix
       && key[|key| - |SectionSuffix|..] == SectionSuffix
    then Some(key[|SectionPrefix|..|key| - |SectionSuffix|])
    else None
  }

  /** The slug can be read back from the key. */
  lemma SectionKeyRoundTrip(heading: string)
    ensures SectionSlugOf(SectionKey(heading)) == Some(SectionSlug(heading))
  {
    var key := SectionKey(heading);
    assert key[|SectionPrefix|..|key| - |SectionSuffix|] == SectionSlug(heading);
  }

  /** Two headings share a key exactly when they share a slug. */
  lemma SectionKeySameIff(h1: string, h2: string)
    ensures SectionKey(h1) == SectionKey(h2) <==> SectionSlug(h1) == SectionSlug(h2)
  {
    if SectionKey(h1) == SectionKey(h2) {
      SectionKeyRoundTrip(h1);
      SectionKeyRoundTrip(h2);
    }
  }

  /** The text `setItem` stores for a boolean value: `String(b)`. */
  function BoolText(b: bool): (r: string)
    ensures r == "true" <==> b
    ensures r == "false" <==> !b
  {
    if b then "true" else "false"
  }

  /** The expandable content that follows a section header, when there is an element there. */
  datatype Sibling = Sibling(expandable: bool, active: bool)

  /**
   * A reading-list section as its click handler sees it: the header's `active`
   * class, the element after the header, and the heading text of the enclosing
   * section (`None` when there is no enclosing section or it has no `h2`).
   */
  datatype Section = Section(headerActive: bool, next: Option<Sibling>, heading: Option<string>)

  /** One storage write. */
  datatype Entry = Entry(key: string, value: string)

  /**
   * The outcome of a click: the new classes, what was stored, and whether the
   * handler threw (looking up the heading of a header outside any section).
   */
  datatype Clicked = Clicked(after: Section, saved: Option<Entry>, threw: bool)

  /** The header's click handler. */
  function ClickHeader(s: Section): (r: Clicked)
    ensures r.after.headerActive == !s.headerActive && r.after.heading == s.heading
    ensures s.next.None? || !s.next.value.expandable ==> r.after.next == s.next && r.saved.None? && !r.threw
    ensures s.next.Some? && s.next.value.expandable ==>
      r.after.next == Some(Sibling(true, !s.next.value.active))
      && (r.threw <==> s.heading.None?)
      && (s.heading.Some? ==> r.saved == Some(Entry(SectionKey(s.heading.value), BoolText(!s.next.value.active))))
      && (s.heading.None? ==> r.saved.None?)
  {
    var header := !s.headerActive;
    match s.next
    case Some(Sibling(true, active)) =>
      var after := Section(header, Some(Sibling(true, !active)), s.heading);
      if s.heading.None? then Clicked(after, None, true)
      else Clicked(after, Some(Entry(SectionKey(s.heading.value), BoolText(!active))), false)
    case _ => Clicked(Section(header, s.next, s.heading), None, false)
  }

  /** Two clicks restore the classes, and the second stores the state the section is back in. */
  lemma ClickTwice(s: Section)
    ensures ClickHeader(ClickHeader(s).after).after == s
    ensures var second := ClickHeader(ClickHeader(s).after);
      second.saved.Some? ==> second.saved.value.value == BoolText(s.next.value.active)
  {
  }

  const GoalPrefix: string := "goal_"

  /** The key `goal_<index>` of the checkbox at `index`. */
  function GoalKey(index: nat): (r: string)
    ensures |r| > |GoalPrefix|
    ensures r[..|GoalPrefix|] == GoalPrefix
    ensures forall i :: |GoalPrefix| <= i < |r| ==> '0' <= r[i] <= '9'
  {
    var r := GoalPrefix + NatToString(index);
    assert r[..|GoalPrefix|] == GoalPrefix;
    r
  }

  /** The checkbox position read back from a goal key. */
  function GoalIndexOf(key: string): (r: Option<nat>)
  {
    if |key| >= |GoalPrefix| && key[..|GoalPrefix|] == GoalPrefix then ParseNat(key[|GoalPrefix|..]) else None
  }

  /** The position can be read back from the key. */
  lemma GoalKeyRoundTrip(index: nat)
    ensures GoalIndexOf(GoalKey(index)) == Some(index)
  {
    var key := GoalKey(index);
    assert key[|GoalPrefix|..] == NatToString(index);
    ParseNatToString(index);
  }

  /** Distinct checkboxes write distinct keys. */
  lemma GoalKeyInjective(i: nat, j: nat)
    ensures GoalKey(i) == GoalKey(j) <==> i == j
  {
    if GoalKey(i) == GoalKey(j) {
      GoalKeyRoundTrip(i);
      GoalKeyRoundTrip(j);
    }
  }

  /** A section key and a goal key never coincide. */
  lemma KeysDisjoint(heading: string, index: nat)
    ensures SectionKey(heading) != GoalKey(index)
  {
    var s, g := SectionKey(heading), GoalKey(index);
    assert s[0] == SectionPrefix[0];
    assert g[0] == GoalPrefix[0];
  }

  /** The value stored when a checkbox changes: `'completed'` if it is now checked. */
  function GoalValue(checked: bool): (r: string)
    ensures r == "completed" <==> checked
    ensures r == "incomplete" <==> !checked
  {
    if checked then "completed" else "incomplete"
  }

  /** The goals the page lists, in order; the checkbox at position `i` belongs to goal `i`. */
  const Goals: seq<string> := [
    "Read 12 Books in 2025",
    "Finish CS50",
    "Create A Portfolio Website",
    "Run A Marathon",
    "Journal for 100 days",
    "Make My First Video"
  ]

  /** The storage write of the checkbox at `index` after a change to `checked`. */
  function GoalEntry(index: nat, checked: bool): (r: Entry)
    ensures GoalIndexOf(r.key) == Some(index)
    ensures r.value == "completed" <==> checked
  {
    GoalKeyRoundTrip(index);
    Entry(GoalKey(index), GoalValue(checked))
  }

  /** Every goal the page lists gets its own key. */
  lemma GoalsHaveOwnKeys()
    ensures forall i, j :: 0 <= i < |Goals| && 0 <= j < |Goals| && i != j ==> GoalKey(i) != GoalKey(j)
  {
    forall i: nat, j: nat | i < |Goals| && j < |Goals| && i != j
      ensures GoalKey(i) != GoalKey(j)
    {
      GoalKeyInjective(i, j);
    }
  }
}
