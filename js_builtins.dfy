/**
 * The JavaScript built-in operations the page script relies on, stated over
 * unbounded integers and strings as sequences of Unicode scalar values.
 */
module JsBuiltins {
  import opened Wrappers

  /**
   * JavaScript `a % b`: the remainder truncates toward zero, so it takes the
   * sign of `a`. Stated by repeated subtraction, as ECMA-262 defines it.
   */
  function JsRem(a: int, b: int): (r: int)
    requires b != 0
    ensures a >= 0 ==> 0 <= r < (if b > 0 then b else -b)
    ensures a < 0 ==> -(if b > 0 then b else -b) < r <= 0
    ensures -(if b > 0 then b else -b) < a < (if b > 0 then b else -b) ==> r == a
    decreases if a < 0 then 1 - a else a
  {
    var m := if b > 0 then b else -b;
    if a < 0 then -JsRem(-a, b)
    else if a < m then a
    else JsRem(a - m, b)
  }

  /**
   * On a non-negative dividend, JavaScript's remainder is Dafny's (Euclidean)
   * one; on a negative dividend it is the negated remainder of `-a`.
   */
  lemma {:induction false} JsRemEuclidean(a: int, b: int)
    requires b != 0
    ensures a >= 0 ==> JsRem(a, b) == a % (if b > 0 then b else -b)
    ensures a < 0 ==> JsRem(a, b) == -((-a) % (if b > 0 then b else -b))
    decreases if a < 0 then 1 - a else a
  {
    var m := if b > 0 then b else -b;
    if a < 0 {
      assert JsRem(a, b) == -JsRem(-a, b);
      JsRemEuclidean(-a, b);
    } else if a >= m {
      assert JsRem(a, b) == JsRem(a - m, b);
      JsRemEuclidean(a - m, b);
      ModShift(a, m);
    } else {
      ModOfMultiplePlus(a, m, 0, a);
    }
  }

  /** Taking away the divisor once keeps the Euclidean remainder. */
  lemma ModShift(a: int, m: int)
    requires m > 0 && a >= m
    ensures (a - m) % m == a % m
  {
    var q, r := (a - m) / m, (a - m) % m;
    assert a - m == q * m + r;
    assert (q + 1) * m == q * m + m;
    ModOfMultiplePlus(a, m, q + 1, r);
  }

  /** The remainder is determined by any decomposition `q * m + r` with `0 <= r < m`. */
  lemma ModOfMultiplePlus(a: int, m: int, q: int, r: int)
    requires m > 0 && 0 <= r < m && a == q * m + r
    ensures a % m == r
  {
    var q0, r0 := a / m, a % m;
    assert a == q0 * m + r0;
    assert (q - q0) * m == q * m - q0 * m;
    assert (q - q0) * m == r0 - r;
    if q > q0 {
      MulAtLeast(q - q0, m);
    } else if q < q0 {
      MulAtLeast(q0 - q, m);
    }
  }

  lemma MulAtLeast(d: int, m: int)
    requires d >= 1 && m > 0
    ensures d * m >= m
  {
  }

  /** Position of the first element equal to `x` (what `querySelector` returns in document order). */
  function FirstIndexOf<T(==)>(s: seq<T>, x: T): (r: Option<nat>)
    ensures r.Some? ==> r.value < |s| && s[r.value] == x
    ensures r.Some? ==> forall k :: 0 <= k < r.value ==> s[k] != x
    ensures r.None? <==> x !in s
  {
    if s == [] then None
    else if s[0] == x then Some(0)
    else
      var rest := FirstIndexOf(s[1..], x);
      if rest.None? then None else Some(rest.value + 1)
  }

  /** `s.lastIndexOf(c)`: the last position holding `c`, or -1. */
  function LastIndexOf(s: string, c: char): (r: int)
    ensures -1 <= r < |s|
    ensures r >= 0 ==> s[r] == c
    ensures forall k :: r < k < |s| ==> s[k] != c
  {
    if s == [] then -1
    else if s[|s| - 1] == c then |s| - 1
    else LastIndexOf(s[..|s| - 1], c)
  }

  /** `s.startsWith(t)`. */
  predicate StartsWith(s: string, t: string) {
    |t| <= |s| && s[..|t|] == t
  }

  /** `s.includes(t)`, by scanning the start positions one by one. */
  predicate Includes(s: string, t: string)
    decreases |s|
  {
    StartsWith(s, t) || (s != [] && Includes(s[1..], t))
  }

  /** `t` occurs in `s` starting at position `i`. */
  predicate OccursAt(s: string, t: string, i: int) {
    0 <= i && i + |t| <= |s| && s[i..i + |t|] == t
  }

  /** `Includes` holds exactly when `t` occurs at some position of `s`. */
  lemma {:induction false} IncludesIff(s: string, t: string)
    ensures Includes(s, t) <==> exists i :: OccursAt(s, t, i)
    decreases |s|
  {
    if StartsWith(s, t) {
      assert OccursAt(s, t, 0);
    }
    if s != [] {
      IncludesIff(s[1..], t);
      if Includes(s[1..], t) {
        var i :| OccursAt(s[1..], t, i);
        assert s[i + 1..i + 1 + |t|] == s[1..][i..i + |t|];
        assert OccursAt(s, t, i + 1);
      }
      if exists i :: OccursAt(s, t, i) {
        var i :| OccursAt(s, t, i);
        if i > 0 {
          assert s[1..][i - 1..i - 1 + |t|] == s[i..i + |t|];
          assert OccursAt(s[1..], t, i - 1);
        }
      }
    } else {
      if exists i :: OccursAt(s, t, i) {
        var i :| OccursAt(s, t, i);
        assert t == [];
      }
    }
  }

  /** A text includes each of its prefixes (itself among them) and never a longer text. */
  lemma {:induction false} IncludesBounds(s: string, t: string)
    ensures t <= s ==> Includes(s, t)
    ensures Includes(s, t) ==> |t| <= |s|
    decreases |s|
  {
    if t <= s {
      assert StartsWith(s, t);
    }
    if s != [] {
      IncludesBounds(s[1..], t);
    }
  }

  /** `text.split(sep)[0]`: everything before the first `sep`, or all of `text`. */
  function SplitFirst(text: string, sep: char): (r: string)
    ensures r <= text
    ensures sep !in r
    ensures |r| < |text| ==> text[|r|] == sep
  {
    if text == [] || text[0] == sep then []
    else [text[0]] + SplitFirst(text[1..], sep)
  }

  /**
   * The characters JavaScript's `trim` strips and its regular-expression class
   * `\s` matches: WhiteSpace and LineTerminator of ECMA-262 (both sets agree).
   * The functions below take the white-space class as a parameter `ws`; the
   * page script's calls use this one.
   */
  const JsSpace: set<char> := {
    '\t', '\n', '\U{000B}', '\U{000C}', '\r', ' ', '\U{00A0}', '\U{1680}',
    '\U{2000}', '\U{2001}', '\U{2002}', '\U{2003}', '\U{2004}', '\U{2005}',
    '\U{2006}', '\U{2007}', '\U{2008}', '\U{2009}', '\U{200A}',
    '\U{2028}', '\U{2029}', '\U{202F}', '\U{205F}', '\U{3000}', '\U{FEFF}'
  }

  predicate NoneIn(s: string, ws: set<char>) {
    forall i :: 0 <= i < |s| ==> s[i] !in ws
  }

  predicate AllIn(s: string, ws: set<char>) {
    forall i :: 0 <= i < |s| ==> s[i] in ws
  }

  /** The number of white-space characters at the front of `s`. */
  function LeadingIn(s: string, ws: set<char>): (n: nat)
    ensures n <= |s|
    ensures n < |s| ==> s[n] !in ws
  {
    if s != [] && s[0] in ws then 1 + LeadingIn(s[1..], ws) else 0
  }

  /** Every character before `LeadingIn(s, ws)` is white space. */
  lemma {:induction false} LeadingInAt(s: string, ws: set<char>, i: int)
    requires 0 <= i < LeadingIn(s, ws)
    ensures s[i] in ws
  {
    if i > 0 {
      LeadingInAt(s[1..], ws, i - 1);
    }
  }

  /** The number of white-space characters at the end of `s`. */
  function TrailingIn(s: string, ws: set<char>): (n: nat)
    ensures n <= |s|
    ensures n < |s| ==> s[|s| - n - 1] !in ws
  {
    if s != [] && s[|s| - 1] in ws then 1 + TrailingIn(s[..|s| - 1], ws) else 0
  }

  /** Every character of the last `TrailingIn(s, ws)` is white space. */
  lemma {:induction false} TrailingInAt(s: string, ws: set<char>, i: int)
    requires |s| - TrailingIn(s, ws) <= i < |s|
    ensures s[i] in ws
  {
    if i < |s| - 1 {
      TrailingInAt(s[..|s| - 1], ws, i);
    }
  }

  /** A white-space prefix followed by a kept character (or the end) is exactly the leading white space. */
  lemma LeadingInUnique(s: string, ws: set<char>, m: nat)
    requires m <= |s| && AllIn(s[..m], ws) && (m < |s| ==> s[m] !in ws)
    ensures LeadingIn(s, ws) == m
  {
    if LeadingIn(s, ws) > m {
      LeadingInAt(s, ws, m);
    }
  }

  /** A white-space suffix preceded by a kept character (or the start) is exactly the trailing white space. */
  lemma TrailingInUnique(s: string, ws: set<char>, m: nat)
    requires m <= |s| && AllIn(s[|s| - m..], ws) && (m < |s| ==> s[|s| - m - 1] !in ws)
    ensures TrailingIn(s, ws) == m
  {
    var n := TrailingIn(s, ws);
    if n > m {
      TrailingInAt(s, ws, |s| - m - 1);
    }
  }

  /** `s.trimStart()`. */
  function TrimStart(s: string, ws: set<char>): (r: string)
    ensures r != [] ==> r[0] !in ws
  {
    s[LeadingIn(s, ws)..]
  }

  /** `s.trimEnd()`. */
  function TrimEnd(s: string, ws: set<char>): (r: string)
    ensures r != [] ==> r[|r| - 1] !in ws
  {
    s[..|s| - TrailingIn(s, ws)]
  }

  /** `s.trim()`: `s` without its leading and trailing white space. */
  function Trim(s: string, ws: set<char>): (r: string)
    ensures |r| <= |s|
    ensures r != [] ==> r[0] !in ws && r[|r| - 1] !in ws
  {
    TrimEnd(TrimStart(s, ws), ws)
  }

  /** What `Trim` removes is white space at the two ends, and what it keeps is one piece of `s`. */
  lemma {:induction false} TrimIsInfix(s: string, ws: set<char>)
    ensures LeadingIn(s, ws) + |Trim(s, ws)| <= |s|
    ensures Trim(s, ws) == s[LeadingIn(s, ws)..LeadingIn(s, ws) + |Trim(s, ws)|]
    ensures AllIn(s[..LeadingIn(s, ws)], ws)
    ensures AllIn(s[LeadingIn(s, ws) + |Trim(s, ws)|..], ws)
  {
    var lead := LeadingIn(s, ws);
    var t := TrimStart(s, ws);
    var k := |t| - TrailingIn(t, ws);
    TrimParts(s, ws, lead, t, k);
  }

  /** `TrimIsInfix` with the cut points named. */
  lemma TrimParts(s: string, ws: set<char>, lead: nat, t: string, k: nat)
    requires lead == LeadingIn(s, ws) && t == s[lead..] && k == |t| - TrailingIn(t, ws)
    ensures Trim(s, ws) == s[lead..lead + k] && lead + k <= |s|
    ensures AllIn(s[..lead], ws) && AllIn(s[lead + k..], ws)
  {
    SliceOfSuffix(s, lead, k);
    LeadingAllIn(s, ws);
    TrailingAllIn(t, ws);
  }

  /** Cutting the suffix `s[a..]` at `k` cuts `s` at `a + k`. */
  lemma SliceOfSuffix<T>(s: seq<T>, a: nat, k: nat)
    requires a + k <= |s|
    ensures s[a..][..k] == s[a..a + k] && s[a..][k..] == s[a + k..]
  {
  }

  lemma LeadingAllIn(s: string, ws: set<char>)
    ensures AllIn(s[..LeadingIn(s, ws)], ws)
  {
    var lead := LeadingIn(s, ws);
    forall i | 0 <= i < lead
      ensures s[..lead][i] in ws
    {
      LeadingInAt(s, ws, i);
    }
  }

  lemma TrailingAllIn(t: string, ws: set<char>)
    ensures AllIn(t[|t| - TrailingIn(t, ws)..], ws)
  {
    var k := |t| - TrailingIn(t, ws);
    forall i | 0 <= i < |t| - k
      ensures t[k..][i] in ws
    {
      TrailingInAt(t, ws, k + i);
    }
  }

  /** Trimming a string that has no leading or trailing white space changes nothing. */
  lemma TrimUntrimmed(s: string, ws: set<char>)
    requires s != [] ==> s[0] !in ws && s[|s| - 1] !in ws
    ensures Trim(s, ws) == s
  {
    LeadingInUnique(s, ws, 0);
    TrailingInUnique(s, ws, 0);
  }

  /** A text that starts with a character that is not white space is its trimmed form followed by white space. */
  lemma {:induction false} TrimFromWord(s: string, ws: set<char>)
    requires s != [] && s[0] !in ws
    ensures Trim(s, ws) != [] && Trim(s, ws) <= s
    ensures AllIn(s[|Trim(s, ws)|..], ws)
  {
    assert LeadingIn(s, ws) == 0;
    TrimIsInfix(s, ws);
    var r := Trim(s, ws);
    assert s[..0] + r + s[|r|..] == s;
  }

  /** A text made only of white space trims to nothing. */
  lemma {:induction false} TrimBlank(s: string, ws: set<char>)
    requires AllIn(s, ws)
    ensures Trim(s, ws) == []
  {
    TrimIsInfix(s, ws);
  }

  /** White space around `x` is what trimming removes, when `x` has none at its ends. */
  lemma TrimAround(w1: string, x: string, w2: string, ws: set<char>)
    requires AllIn(w1, ws) && AllIn(w2, ws)
    requires x != [] && x[0] !in ws && x[|x| - 1] !in ws
    ensures Trim(w1 + x + w2, ws) == x
  {
    var s := w1 + x + w2;
    assert s[..|w1|] == w1;
    assert s[|w1|] == x[0];
    LeadingInUnique(s, ws, |w1|);
    var t := s[|w1|..];
    assert t == x + w2;
    assert t[|t| - |w2|..] == w2;
    assert t[|t| - |w2| - 1] == x[|x| - 1];
    TrailingInUnique(t, ws, |w2|);
    assert t[..|t| - |w2|] == x;
  }

  /** `toLowerCase` on one character, for the letters A to Z. */
  function LowerChar(c: char): (r: char)
    ensures 'A' <= c <= 'Z' ==> 'a' <= r <= 'z' && r as int - c as int == 32
    ensures !('A' <= c <= 'Z') ==> r == c
  {
    if 'A' <= c <= 'Z' then (c as int + 32) as char else c
  }

  /** `s.toLowerCase()`, restricted to the letters A to Z. */
  function Lower(s: string): (r: string)
    ensures |r| == |s|
    ensures forall i :: 0 <= i < |s| ==> r[i] == LowerChar(s[i])
  {
    seq(|s|, i requires 0 <= i < |s| => LowerChar(s[i]))
  }

  /** Lower-casing keeps JavaScript white space where it was: no letter is white space. */
  lemma LowerKeepsSpace(s: string)
    ensures forall i :: 0 <= i < |s| ==> (Lower(s)[i] in JsSpace <==> s[i] in JsSpace)
  {
    forall i | 0 <= i < |s|
      ensures Lower(s)[i] in JsSpace <==> s[i] in JsSpace
    {
      var c := s[i];
      if 'A' <= c <= 'Z' {
        assert c !in JsSpace && LowerChar(c) !in JsSpace;
      }
    }
  }

  /** Lower-casing twice is lower-casing once. */
  lemma LowerIdempotent(s: string)
    ensures Lower(Lower(s)) == Lower(s)
  {
  }

  /** `s.replace(/\s+/g, fill)` for the class `ws`: every maximal run of white space becomes `fill`. */
  function ReplaceRuns(s: string, ws: set<char>, fill: char): (r: string)
    ensures |r| <= |s|
    decreases |s|
  {
    if s == [] then []
    else if s[0] in ws then [fill] + ReplaceRuns(s[LeadingIn(s, ws)..], ws, fill)
    else [s[0]] + ReplaceRuns(s[1..], ws, fill)
  }

  /** With a fill that is not white space, no white space is left. */
  lemma {:induction false} ReplaceLeavesNone(s: string, ws: set<char>, fill: char)
    requires fill !in ws
    ensures NoneIn(ReplaceRuns(s, ws, fill), ws)
    decreases |s|
  {
    if s != [] {
      if s[0] in ws {
        ReplaceLeavesNone(s[LeadingIn(s, ws)..], ws, fill);
      } else {
        ReplaceLeavesNone(s[1..], ws, fill);
      }
    }
  }

  /** A string without white space is left alone. */
  lemma {:induction false} ReplaceNone(s: string, ws: set<char>, fill: char)
    requires NoneIn(s, ws)
    ensures ReplaceRuns(s, ws, fill) == s
    decreases |s|
  {
    if s != [] {
      ReplaceNone(s[1..], ws, fill);
    }
  }

  /** A non-empty run of white space and nothing else becomes one `fill`. */
  lemma ReplaceOneRun(w: string, ws: set<char>, fill: char)
    requires w != [] && AllIn(w, ws)
    ensures ReplaceRuns(w, ws, fill) == [fill]
  {
    assert w[..|w|] == w;
    LeadingInUnique(w, ws, |w|);
  }

  /**
   * Replacement works piece by piece as long as the cut does not fall inside
   * a run of white space.
   */
  lemma {:induction false} ReplaceConcat(x: string, y: string, ws: set<char>, fill: char)
    requires x == [] || y == [] || x[|x| - 1] !in ws || y[0] !in ws
    ensures ReplaceRuns(x + y, ws, fill) == ReplaceRuns(x, ws, fill) + ReplaceRuns(y, ws, fill)
    decreases |x|, 1
  {
    if x == [] {
      assert x + y == y;
    } else if x[0] !in ws {
      ReplaceConcatKept(x, y, ws, fill);
    } else if LeadingIn(x, ws) < |x| {
      ReplaceConcatRun(x, y, ws, fill);
    } else {
      LeadingInAt(x, ws, |x| - 1);
      ReplaceConcatLastRun(x, y, ws, fill);
    }
  }

  /** `ReplaceConcat` when `x` starts with a character that is kept. */
  lemma {:induction false} ReplaceConcatKept(x: string, y: string, ws: set<char>, fill: char)
    requires x != [] && x[0] !in ws
    requires y == [] || x[|x| - 1] !in ws || y[0] !in ws
    ensures ReplaceRuns(x + y, ws, fill) == ReplaceRuns(x, ws, fill) + ReplaceRuns(y, ws, fill)
    decreases |x|, 0
  {
    var tail := x[1..];
    assert tail != [] ==> tail[|tail| - 1] == x[|x| - 1];
    ReplaceConcat(tail, y, ws, fill);
    ReplaceKeptConcat(x, y, ws, fill);
    ReplaceRunsKept(x, ws, fill);
    AppendAssoc([x[0]], ReplaceRuns(tail, ws, fill), ReplaceRuns(y, ws, fill));
  }

  /** `ReplaceConcat` when `x` starts with a run of white space that ends inside `x`. */
  lemma {:induction false} ReplaceConcatRun(x: string, y: string, ws: set<char>, fill: char)
    requires x != [] && x[0] in ws && LeadingIn(x, ws) < |x|
    requires y == [] || x[|x| - 1] !in ws || y[0] !in ws
    ensures ReplaceRuns(x + y, ws, fill) == ReplaceRuns(x, ws, fill) + ReplaceRuns(y, ws, fill)
    decreases |x|, 0
  {
    var xy := x + y;
    var n := LeadingIn(x, ws);
    var rest := x[n..];
    LeadingInStable(x, y, ws);
    assert xy[0] == x[0] && xy[n..] == rest + y;
    assert rest[|rest| - 1] == x[|x| - 1];
    ReplaceConcat(rest, y, ws, fill);
    ReplaceRunsRun(xy, ws, fill);
    ReplaceRunsRun(x, ws, fill);
  }

  /** `ReplaceConcat` when `x` is one run of white space. */
  lemma ReplaceConcatLastRun(x: string, y: string, ws: set<char>, fill: char)
    requires x != [] && LeadingIn(x, ws) == |x|
    requires y == [] || y[0] !in ws
    ensures ReplaceRuns(x + y, ws, fill) == ReplaceRuns(x, ws, fill) + ReplaceRuns(y, ws, fill)
  {
    var xy := x + y;
    LeadingAllIn(x, ws);
    assert x[..|x|] == x && xy[..|x|] == x;
    assert y != [] ==> xy[|x|] == y[0];
    LeadingInUnique(xy, ws, |x|);
    assert xy[|x|..] == y && x[|x|..] == [];
    ReplaceRunsRun(xy, ws, fill);
    ReplaceRunsRun(x, ws, fill);
  }

  /** The first step of `ReplaceRuns` on `x + y` when `x` starts with a kept character. */
  lemma ReplaceKeptConcat(x: string, y: string, ws: set<char>, fill: char)
    requires x != [] && x[0] !in ws
    ensures ReplaceRuns(x + y, ws, fill) == [x[0]] + ReplaceRuns(x[1..] + y, ws, fill)
  {
    var xy := x + y;
    assert xy[0] == x[0] && xy[1..] == x[1..] + y;
    ReplaceRunsKept(xy, ws, fill);
  }

  lemma AppendAssoc<T>(a: seq<T>, b: seq<T>, c: seq<T>)
    ensures a + (b + c) == (a + b) + c
  {
  }

  /** One step of `ReplaceRuns` on a kept first character. */
  lemma ReplaceRunsKept(s: string, ws: set<char>, fill: char)
    requires s != [] && s[0] !in ws
    ensures ReplaceRuns(s, ws, fill) == [s[0]] + ReplaceRuns(s[1..], ws, fill)
  {
  }

  /** One step of `ReplaceRuns` on a leading run of white space. */
  lemma ReplaceRunsRun(s: string, ws: set<char>, fill: char)
    requires s != [] && s[0] in ws
    ensures ReplaceRuns(s, ws, fill) == [fill] + ReplaceRuns(s[LeadingIn(s, ws)..], ws, fill)
  {
  }

  /** A word, a run of white space, then a text starting with a word: the word stays, the run becomes one `fill`, and the rest is replaced on its own. */
  lemma ReplaceWordThenRest(x: string, w: string, y: string, ws: set<char>, fill: char)
    requires x != [] && NoneIn(x, ws) && w != [] && AllIn(w, ws)
    requires y != [] && y[0] !in ws
    ensures ReplaceRuns(x + w + y, ws, fill) == x + [fill] + ReplaceRuns(y, ws, fill)
  {
    assert x + w + y == x + (w + y);
    assert (w + y)[0] == w[0];
    ReplaceConcat(x, w + y, ws, fill);
    ReplaceConcat(w, y, ws, fill);
    ReplaceNone(x, ws, fill);
    ReplaceOneRun(w, ws, fill);
  }

  /** Two words with one run of white space between them: the run becomes one `fill`. */
  lemma ReplaceTwoWords(x: string, w: string, y: string, ws: set<char>, fill: char)
    requires x != [] && NoneIn(x, ws) && y != [] && NoneIn(y, ws)
    requires w != [] && AllIn(w, ws)
    ensures ReplaceRuns(x + w + y, ws, fill) == x + [fill] + y
  {
    assert x + w + y == x + (w + y);
    assert (w + y)[0] == w[0];
    ReplaceConcat(x, w + y, ws, fill);
    ReplaceConcat(w, y, ws, fill);
    ReplaceNone(x, ws, fill);
    ReplaceNone(y, ws, fill);
    ReplaceOneRun(w, ws, fill);
  }

  /** Appending to `x` does not change its leading white space when that ends inside `x`. */
  lemma LeadingInStable(x: string, y: string, ws: set<char>)
    requires LeadingIn(x, ws) < |x|
    ensures LeadingIn(x + y, ws) == LeadingIn(x, ws)
  {
    var n := LeadingIn(x, ws);
    var xy := x + y;
    forall i | 0 <= i < n
      ensures xy[..n][i] in ws
    {
      LeadingInAt(x, ws, i);
    }
    assert xy[n] == x[n];
    LeadingInUnique(xy, ws, n);
  }

  function DigitChar(d: nat): (c: char)
    requires d < 10
    ensures '0' <= c <= '9' && c as int - '0' as int == d
  {
    ('0' as int + d) as char
  }

  /** `String(n)` for a non-negative integer: its decimal digits, without leading zeros. */
  function NatToString(n: nat): (r: string)
    ensures r != [] && forall i :: 0 <= i < |r| ==> '0' <= r[i] <= '9'
    ensures |r| > 1 ==> r[0] != '0'
  {
    if n < 10 then [DigitChar(n)] else NatToString(n / 10) + [DigitChar(n % 10)]
  }

  /** Reads a string of decimal digits back as a number; anything else is `None`. */
  function ParseNat(s: string): (r: Option<nat>)
  {
    if s == [] || !('0' <= s[|s| - 1] <= '9') then None
    else
      var d := s[|s| - 1] as int - '0' as int;
      if |s| == 1 then Some(d)
      else
        var front := ParseNat(s[..|s| - 1]);
        if front.None? then None else Some(front.value * 10 + d)
  }

  /** Decimal printing is undone by parsing, so distinct numbers print differently. */
  lemma {:induction false} ParseNatToString(n: nat)
    ensures ParseNat(NatToString(n)) == Some(n)
  {
    if n >= 10 {
      var s := NatToString(n);
      ParseNatToString(n / 10);
      assert s[..|s| - 1] == NatToString(n / 10);
    }
  }
}
