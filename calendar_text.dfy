/**
 * The weekly schedule's display text: every schedule item that is not marked
 * empty has its text cut down to the title, the part before the first comma.
 */
module CalendarText {
  import opened JsBuiltins

  /** `text.split(',')[0]`: the text up to the first comma, or all of it when it has none. */
  function Title(text: string): (r: string)
    ensures r <= text && ',' !in r
    ensures |r| < |text| ==> text[|r|] == ','
  {
    SplitFirst(text, ',')
  }

  /** The three facts of `Title`'s contract pin its result down: no other prefix has them. */
  lemma TitleUnique(text: string, t: string)
    requires t <= text && ',' !in t
    requires |t| < |text| ==> text[|t|] == ','
    ensures t == Title(text)
  {
  }

  /** A text without a comma is its own title. */
  lemma TitleOfCommaFree(text: string)
    requires ',' !in text
    ensures Title(text) == text
  {
    TitleUnique(text, text);
  }

  /** Taking the title twice is taking it once. */
  lemma TitleIdempotent(text: string)
    ensures Title(Title(text)) == Title(text)
  {
    TitleOfCommaFree(Title(text));
  }

  /** The item texts after one pass: the non-empty items keep only their title. */
  function Simplified(texts: seq<string>, empty: seq<bool>): (r: seq<string>)
    requires |empty| == |texts|
    ensures |r| == |texts|
    ensures forall i :: 0 <= i < |r| && empty[i] ==> r[i] == texts[i]
    ensures forall i :: 0 <= i < |r| && !empty[i] ==> ',' !in r[i] && r[i] <= texts[i]
    ensures forall i :: 0 <= i < |r| && !empty[i] ==> (|r[i]| < |texts[i]| ==> texts[i][|r[i]|] == ',')
  {
    seq(|texts|, i requires 0 <= i < |texts| => if empty[i] then texts[i] else Title(texts[i]))
  }

  /** A second pass changes nothing. */
  lemma SimplifiedIdempotent(texts: seq<string>, empty: seq<bool>)
    requires |empty| == |texts|
    ensures Simplified(Simplified(texts, empty), empty) == Simplified(texts, empty)
  {
    var once := Simplified(texts, empty);
    forall i | 0 <= i < |texts| && !empty[i]
      ensures Title(once[i]) == once[i]
    {
      TitleOfCommaFree(once[i]);
    }
  }

  /** The schedule items in document order: whether each carries the `empty` class, and its text. */
  class Schedule {
    const empty: seq<bool>
    const texts: array<string>

    ghost predicate Valid()
      reads this
    {
      texts.Length == |empty|
    }

    constructor(empty: seq<bool>, texts: seq<string>)
      requires |empty| == |texts|
      ensures Valid()
      ensures this.empty == empty && this.texts[..] == texts
      ensures fresh(this.texts)
    {
      this.empty := empty;
      this.texts := new string[|texts|](i requires 0 <= i < |texts| => texts[i]);
    }

    /** `simplifyCalendarText`: overwrite each non-empty item's text with its title. */
    method Simplify()
      requires Valid()
      modifies texts
      ensures Valid()
      ensures texts[..] == Simplified(old(texts[..]), empty)
    {
      var i := 0;
      while i < texts.Length
        invariant 0 <= i <= texts.Length
        invariant forall k :: 0 <= k < i ==> texts[k] == (if empty[k] then old(texts[k]) else Title(old(texts[k])))
        invariant forall k :: i <= k < texts.Length ==> texts[k] == old(texts[k])
      {
        if !empty[i] {
          texts[i] := Title(texts[i]);
        }
        i := i + 1;
      }
    }
  }
}
