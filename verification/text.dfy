/**
 * The JavaScript string operations the parser relies on: `trim`, `toLowerCase`,
 * `replace(/\s+/g, " ")`, `startsWith`, `split` and `join`.
 *
 * Whitespace is the ECMAScript WhiteSpace and LineTerminator set, which is what
 * both `String.prototype.trim` and the regular-expression class `\s` use.
 * Case folding is ASCII only.
 */
module Text {

  /** ECMAScript whitespace and line terminators (including the byte-order mark U+FEFF). */
  predicate IsSpace(c: char) {
    || c == '\t' || c == '\n' || c == '\U{000B}' || c == '\U{000C}' || c == '\r'
    || c == ' ' || c == '\U{00A0}' || c == '\U{1680}'
    || ('\U{2000}' <= c <= '\U{200A}')
    || c == '\U{2028}' || c == '\U{2029}' || c == '\U{202F}' || c == '\U{205F}'
    || c == '\U{3000}' || c == '\U{FEFF}'
  }

  /** Sequence concatenation is associative (stated once, in a small context). */
  lemma Assoc<T>(a: seq<T>, b: seq<T>, c: seq<T>)
    ensures a + b + c == a + (b + c)
  {
  }

  predicate AllSpace(s: string) {
    forall i :: 0 <= i < |s| ==> IsSpace(s[i])
  }

  /** Neither end of `s` is whitespace: `s` is a fixed point of `trim`. */
  predicate IsTrimmed(s: string) {
    s == [] || (!IsSpace(s[0]) && !IsSpace(s[|s| - 1]))
  }

  /** `trimStart`: drops the leading whitespace run and nothing else. */
  function TrimStart(s: string): (r: string)
    ensures |r| <= |s| && r == s[|s| - |r|..]
    ensures AllSpace(s[..|s| - |r|])
    ensures r == [] || !IsSpace(r[0])
    ensures r == [] <==> AllSpace(s)
    ensures |s| > 0 && IsSpace(s[0]) ==> |r| < |s|
    decreases |s|
  {
    if |s| > 0 && IsSpace(s[0]) then
      var r := TrimStart(s[1..]);
      TrimStartCons(s, r);
      r
    else
      TrimStartNone(s);
      s
  }

  /** A string that does not start with whitespace is its own `trimStart`. */
  lemma TrimStartNone(s: string)
    requires s == [] || !IsSpace(s[0])
    ensures s == s[|s| - |s|..] && AllSpace(s[..|s| - |s|])
    ensures s == [] <==> AllSpace(s)
    ensures !(|s| > 0 && IsSpace(s[0]))
  {
    assert s[0..] == s;
  }

  /** The facts about trimming the tail of `s` carry over to `s` when `s` starts with whitespace. */
  lemma TrimStartCons(s: string, r: string)
    requires |s| > 0 && IsSpace(s[0])
    requires |r| <= |s| - 1 && r == s[1..][|s| - 1 - |r|..]
    requires AllSpace(s[1..][..|s| - 1 - |r|])
    requires r == [] <==> AllSpace(s[1..])
    requires r == [] || !IsSpace(r[0])
    ensures |r| < |s| && r == s[|s| - |r|..]
    ensures AllSpace(s[..|s| - |r|])
    ensures r == [] || !IsSpace(r[0])
    ensures r == [] <==> AllSpace(s)
  {
    var k := |s| - |r|;
    forall i | 1 <= i < k
      ensures IsSpace(s[..k][i])
    {
      assert s[..k][i] == s[1..][..k - 1][i - 1];
    }
    if AllSpace(s[1..]) {
      forall i | 1 <= i < |s|
        ensures IsSpace(s[i])
      {
        assert s[i] == s[1..][i - 1];
      }
    }
    if AllSpace(s) {
      forall i | 0 <= i < |s| - 1
        ensures IsSpace(s[1..][i])
      {
        assert s[1..][i] == s[i + 1];
      }
    }
  }

  /** `trimEnd`: drops the trailing whitespace run and nothing else. */
  function TrimEnd(s: string): (r: string)
    ensures |r| <= |s| && r == s[..|r|]
    ensures AllSpace(s[|r|..])
    ensures r == [] || !IsSpace(r[|r| - 1])
    ensures r == [] <==> AllSpace(s)
    decreases |s|
  {
    if |s| > 0 && IsSpace(s[|s| - 1]) then
      var r := TrimEnd(s[..|s| - 1]);
      TrimEndCons(s, r);
      r
    else s
  }

  /** The facts about trimming all but the last character carry over to `s` when `s` ends in whitespace. */
  lemma TrimEndCons(s: string, r: string)
    requires |s| > 0 && IsSpace(s[|s| - 1])
    requires |r| <= |s| - 1 && r == s[..|s| - 1][..|r|]
    requires AllSpace(s[..|s| - 1][|r|..])
    requires r == [] <==> AllSpace(s[..|s| - 1])
    ensures r == s[..|r|]
    ensures AllSpace(s[|r|..])
    ensures r == [] <==> AllSpace(s)
  {
    var k := |r|;
    var tail := s[k..];
    var inner := s[..|s| - 1][k..];
    forall i | 0 <= i < |tail|
      ensures IsSpace(tail[i])
    {
      if i < |inner| {
        assert tail[i] == inner[i];
      }
    }
    if AllSpace(s[..|s| - 1]) {
      forall i | 0 <= i < |s|
        ensures IsSpace(s[i])
      {
        if i < |s| - 1 {
          assert s[i] == s[..|s| - 1][i];
        }
      }
    }
    if AllSpace(s) {
      var init := s[..|s| - 1];
      forall i | 0 <= i < |init|
        ensures IsSpace(init[i])
      {
        assert init[i] == s[i];
      }
    }
  }

  /** `String.prototype.trim`. */
  function Trim(s: string): (r: string)
    ensures IsTrimmed(r)
    ensures |r| <= |s|
    ensures r == [] <==> AllSpace(s)
  {
    var t := TrimStart(s);
    var r := TrimEnd(t);
    assert r != [] ==> r[0] == t[0];
    r
  }

  /** Splits `s` into leading whitespace, its trimmed core and trailing whitespace. */
  lemma TrimDecompose(s: string) returns (lead: string, tail: string)
    ensures s == lead + Trim(s) + tail
    ensures AllSpace(lead) && AllSpace(tail)
  {
    var t := TrimStart(s);
    var r := TrimEnd(t);
    lead := s[..|s| - |t|];
    tail := t[|r|..];
    assert Trim(s) == r;
    SplitAt(s, |s| - |t|);
    SplitAt(t, |r|);
    Assoc(lead, r, tail);
  }

  lemma SplitAt<T>(s: seq<T>, k: nat)
    requires k <= |s|
    ensures s == s[..k] + s[k..]
  {
  }

  lemma {:induction false} TrimStartSkips(ws: string, x: string)
    requires AllSpace(ws)
    ensures TrimStart(ws + x) == TrimStart(x)
    decreases |ws|
  {
    if ws == [] {
      assert ws + x == x;
    } else {
      assert (ws + x)[0] == ws[0];
      assert (ws + x)[1..] == ws[1..] + x;
      TrimStartSkips(ws[1..], x);
    }
  }

  lemma {:induction false} TrimEndSkips(x: string, ws: string)
    requires AllSpace(ws)
    ensures TrimEnd(x + ws) == TrimEnd(x)
    decreases |ws|
  {
    if ws == [] {
      assert x + ws == x;
    } else {
      assert (x + ws)[|x + ws| - 1] == ws[|ws| - 1];
      assert (x + ws)[..|x + ws| - 1] == x + ws[..|ws| - 1];
      TrimEndSkips(x, ws[..|ws| - 1]);
    }
  }

  /** Trimming a trimmed string surrounded by whitespace gives the string back. */
  lemma TrimPadded(ws1: string, t: string, ws2: string)
    requires AllSpace(ws1) && AllSpace(ws2) && IsTrimmed(t)
    ensures Trim(ws1 + t + ws2) == t
  {
    if t == [] {
      BlankPadding(ws1, ws2);
      assert ws1 + t + ws2 == ws1 + ws2;
    } else {
      TrimPaddedText(ws1, t, ws2);
    }
  }

  lemma BlankPadding(ws1: string, ws2: string)
    requires AllSpace(ws1) && AllSpace(ws2)
    ensures AllSpace(ws1 + ws2)
  {
    forall i | 0 <= i < |ws1 + ws2|
      ensures IsSpace((ws1 + ws2)[i])
    {
      if i >= |ws1| {
        assert (ws1 + ws2)[i] == ws2[i - |ws1|];
      }
    }
  }

  lemma TrimPaddedText(ws1: string, t: string, ws2: string)
    requires AllSpace(ws1) && AllSpace(ws2) && IsTrimmed(t) && t != []
    ensures Trim(ws1 + t + ws2) == t
  {
    assert ws1 + t + ws2 == ws1 + (t + ws2);
    TrimStartSkips(ws1, t + ws2);
    assert TrimStart(t + ws2) == t + ws2 by {
      assert (t + ws2)[0] == t[0];
    }
    TrimEndSkips(t, ws2);
    assert TrimEnd(t) == t;
  }

  /** `trim` is idempotent, and what it leaves is blank exactly when the input was. */
  lemma TrimTwice(s: string)
    ensures Trim(Trim(s)) == Trim(s)
    ensures AllSpace(Trim(s)) <==> AllSpace(s)
  {
    TrimmedFixed(Trim(s));
    if Trim(s) != [] {
      assert !IsSpace(Trim(s)[0]);
    }
  }

  /** A trimmed string is its own `trim`. */
  lemma TrimmedFixed(t: string)
    requires IsTrimmed(t)
    ensures Trim(t) == t
  {
    TrimPadded([], t, []);
    assert [] + t + [] == t;
  }

  /** Trimming a trimmed string preceded by whitespace gives the string back. */
  lemma TrimAfterSpaces(ws: string, t: string)
    requires AllSpace(ws) && IsTrimmed(t)
    ensures Trim(ws + t) == t
  {
    TrimStartSkips(ws, t);
    assert TrimStart(t) == t;
    assert TrimEnd(t) == t;
  }

  lemma {:induction false} TrimStartKeeps(s: string, c: char)
    requires c in s && !IsSpace(c)
    ensures c in TrimStart(s)
    decreases |s|
  {
    if IsSpace(s[0]) {
      var i :| 0 <= i < |s| && s[i] == c;
      assert i != 0;
      assert s[1..][i - 1] == c;
      TrimStartKeeps(s[1..], c);
    }
  }

  lemma {:induction false} TrimEndKeeps(s: string, c: char)
    requires c in s && !IsSpace(c)
    ensures c in TrimEnd(s)
    decreases |s|
  {
    if IsSpace(s[|s| - 1]) {
      var i :| 0 <= i < |s| && s[i] == c;
      assert i != |s| - 1;
      assert s[..|s| - 1][i] == c;
      TrimEndKeeps(s[..|s| - 1], c);
    }
  }

  /** `trim` never removes a character that is not whitespace. */
  lemma TrimKeeps(s: string, c: char)
    requires c in s && !IsSpace(c)
    ensures c in Trim(s)
  {
    TrimStartKeeps(s, c);
    TrimEndKeeps(TrimStart(s), c);
  }

  /** ASCII `toLowerCase` of one character. */
  function LowerChar(c: char): char {
    if 'A' <= c <= 'Z' then (c as int + 32) as char else c
  }

  /** `String.prototype.toLowerCase`, ASCII letters only. */
  function Lower(s: string): (r: string)
    ensures |r| == |s|
  {
    seq(|s|, i requires 0 <= i < |s| => LowerChar(s[i]))
  }

  lemma LowerAppend(a: string, b: string)
    ensures Lower(a + b) == Lower(a) + Lower(b)
  {
    assert forall i :: 0 <= i < |a + b| ==> Lower(a + b)[i] == (Lower(a) + Lower(b))[i];
  }

  lemma LowerSpaces(ws: string)
    requires AllSpace(ws)
    ensures Lower(ws) == ws
  {
  }

  lemma LowerTrimmed(t: string)
    requires IsTrimmed(t)
    ensures IsTrimmed(Lower(t))
  {
  }

  /** `replace(/\s+/g, " ")`: every maximal whitespace run becomes one space. */
  function Collapse(s: string): (r: string)
    ensures |r| <= |s|
    decreases |s|
  {
    if s == [] then []
    else if IsSpace(s[0]) then [' '] + Collapse(TrimStart(s))
    else [s[0]] + Collapse(s[1..])
  }

  lemma {:induction false} CollapseKeeps(s: string, c: char)
    requires c in s && !IsSpace(c)
    ensures c in Collapse(s)
    decreases |s|
  {
    if s[0] == c {
    } else if IsSpace(s[0]) {
      TrimStartKeeps(s, c);
      CollapseKeeps(TrimStart(s), c);
    } else {
      var i :| 0 <= i < |s| && s[i] == c;
      assert s[1..][i - 1] == c;
      CollapseKeeps(s[1..], c);
    }
  }

  lemma CollapseSpaces(ws: string)
    requires ws != [] && AllSpace(ws)
    ensures Collapse(ws) == " "
  {
    assert IsSpace(ws[0]);
  }

  lemma {:induction false} TrimStartAppend(a: string, b: string)
    requires !AllSpace(a)
    ensures TrimStart(a + b) == TrimStart(a) + b
    decreases |a|
  {
    assert (a + b)[0] == a[0];
    if IsSpace(a[0]) {
      assert (a + b)[1..] == a[1..] + b;
      TrimStartAppend(a[1..], b);
    }
  }

  /** A boundary after a non-space character splits the whitespace collapse. */
  lemma {:induction false} CollapseAppend(a: string, b: string)
    requires a != [] && !IsSpace(a[|a| - 1])
    ensures Collapse(a + b) == Collapse(a) + Collapse(b)
    decreases |a|
  {
    if !IsSpace(a[0]) {
      CollapseStepChar(a, b);
      if |a| == 1 {
        assert a[1..] == [];
        assert (a + b)[1..] == b;
      } else {
        CollapseAppend(a[1..], b);
        Assoc([a[0]], Collapse(a[1..]), Collapse(b));
      }
    } else {
      assert !IsSpace(a[|a| - 1]);
      var t := CollapseStepSpace(a, b);
      assert t[|t| - 1] == a[|a| - 1];
      CollapseAppend(t, b);
      Assoc([' '], Collapse(t), Collapse(b));
    }
  }

  /** One step of the collapse on `a + b` when `a` starts with a non-space character. */
  lemma CollapseStepChar(a: string, b: string)
    requires a != [] && !IsSpace(a[0])
    ensures Collapse(a + b) == [a[0]] + Collapse((a + b)[1..])
    ensures (a + b)[1..] == a[1..] + b
    ensures Collapse(a) == [a[0]] + Collapse(a[1..])
  {
    assert (a + b)[0] == a[0];
  }

  /** One step of the collapse on `a + b` when `a` starts with whitespace but is not all whitespace. */
  lemma CollapseStepSpace(a: string, b: string) returns (t: string)
    requires a != [] && IsSpace(a[0]) && !AllSpace(a)
    ensures t == TrimStart(a) && t != [] && t == a[|a| - |t|..]
    ensures Collapse(a + b) == [' '] + Collapse(t + b)
    ensures Collapse(a) == [' '] + Collapse(t)
  {
    assert (a + b)[0] == a[0];
    TrimStartAppend(a, b);
    t := TrimStart(a);
  }

  /** Collapsing keeps the last character when it is not whitespace. */
  lemma {:induction false} CollapseLast(s: string)
    requires s != [] && !IsSpace(s[|s| - 1])
    ensures Collapse(s) != [] && Collapse(s)[|Collapse(s)| - 1] == s[|s| - 1]
    decreases |s|
  {
    if IsSpace(s[0]) {
      var t := TrimStart(s);
      assert t[|t| - 1] == s[|s| - 1];
      CollapseLast(t);
    } else if |s| > 1 {
      assert s[1..][|s| - 2] == s[|s| - 1];
      CollapseLast(s[1..]);
    }
  }

  /** Collapsing a trimmed non-empty string keeps it trimmed and non-empty. */
  lemma CollapseTrimmed(s: string)
    requires s != [] && IsTrimmed(s)
    ensures Collapse(s) != [] && IsTrimmed(Collapse(s))
  {
    CollapseLast(s);
  }

  /** No ASCII upper-case letter occurs. */
  predicate NoUpper(s: string) {
    forall i :: 0 <= i < |s| ==> !('A' <= s[i] <= 'Z')
  }

  /** Every whitespace character is a plain space, and no two are adjacent. */
  predicate SingleSpaced(s: string) {
    forall i :: 0 <= i < |s| && IsSpace(s[i]) ==> s[i] == ' ' && (i + 1 < |s| ==> !IsSpace(s[i + 1]))
  }

  /** Putting `c` in front keeps a text single-spaced when `c` is a plain space before a non-space, or not whitespace. */
  lemma ConsSingleSpaced(c: char, x: string)
    requires SingleSpaced(x)
    requires IsSpace(c) ==> c == ' ' && (x == [] || !IsSpace(x[0]))
    ensures SingleSpaced([c] + x)
  {
    var y := [c] + x;
    forall i | 0 < i < |y|
      ensures y[i] == x[i - 1]
    {
    }
  }

  /**
   * The collapse leaves single plain spaces only, introduces no upper-case
   * letter, and keeps a leading non-space character in front.
   */
  lemma {:induction false} CollapseShape(s: string)
    ensures SingleSpaced(Collapse(s))
    ensures NoUpper(s) ==> NoUpper(Collapse(s))
    ensures s != [] && !IsSpace(s[0]) ==> Collapse(s) != [] && Collapse(s)[0] == s[0]
    decreases |s|
  {
    if s != [] {
      var c := if IsSpace(s[0]) then ' ' else s[0];
      var t := if IsSpace(s[0]) then TrimStart(s) else s[1..];
      assert Collapse(s) == [c] + Collapse(t);
      CollapseShape(t);
      ConsSingleSpaced(c, Collapse(t));
      if NoUpper(s) {
        NoUpperDrop(s, |s| - |t|);
        ConsNoUpper(c, Collapse(t));
      }
    }
  }

  /** Dropping a prefix keeps a text free of upper-case letters. */
  lemma NoUpperDrop(s: string, k: nat)
    requires k <= |s| && NoUpper(s)
    ensures NoUpper(s[k..])
  {
    forall i | 0 <= i < |s[k..]|
      ensures !('A' <= s[k..][i] <= 'Z')
    {
      assert s[k..][i] == s[k + i];
    }
  }

  /** Putting a character that is not upper-case in front keeps a text free of upper-case letters. */
  lemma ConsNoUpper(c: char, x: string)
    requires !('A' <= c <= 'Z') && NoUpper(x)
    ensures NoUpper([c] + x)
  {
    var y := [c] + x;
    forall i | 0 < i < |y|
      ensures y[i] == x[i - 1]
    {
    }
  }

  /** Trimming keeps a text single-spaced and free of upper-case letters. */
  lemma TrimShape(s: string)
    ensures SingleSpaced(s) ==> SingleSpaced(Trim(s))
    ensures NoUpper(s) ==> NoUpper(Trim(s))
  {
    var lead, tail := TrimDecompose(s);
    var t := Trim(s);
    forall i | 0 <= i < |t|
      ensures t[i] == s[|lead| + i]
    {
      Assoc(lead, t, tail);
    }
  }

  /** The `norm` helper: lower-case, collapse whitespace runs, trim. */
  function Norm(s: string): (r: string)
    ensures IsTrimmed(r)
    ensures NoUpper(r)
    ensures SingleSpaced(r)
    ensures forall i :: 0 <= i < |r| && IsSpace(r[i]) ==> r[i] == ' ' && i + 1 < |r| && !IsSpace(r[i + 1])
  {
    var lower := Lower(s);
    LowerNoUpper(s);
    CollapseShape(lower);
    TrimShape(Collapse(lower));
    TrimmedSpacesInside(Trim(Collapse(lower)));
    Trim(Collapse(lower))
  }

  lemma LowerNoUpper(s: string)
    ensures NoUpper(Lower(s))
  {
    forall i | 0 <= i < |s|
      ensures !('A' <= Lower(s)[i] <= 'Z')
    {
      assert Lower(s)[i] == LowerChar(s[i]);
    }
  }

  /** In a trimmed single-spaced text every space has a non-space character after it. */
  lemma TrimmedSpacesInside(r: string)
    requires IsTrimmed(r) && SingleSpaced(r)
    ensures forall i :: 0 <= i < |r| && IsSpace(r[i]) ==> r[i] == ' ' && i + 1 < |r| && !IsSpace(r[i + 1])
  {
  }

  /** Normalising never loses a character that is neither whitespace nor an upper-case letter. */
  lemma NormKeeps(s: string, c: char)
    requires c in s && !IsSpace(c) && !('A' <= c <= 'Z')
    ensures c in Norm(s)
  {
    var i :| 0 <= i < |s| && s[i] == c;
    assert Lower(s)[i] == c;
    CollapseKeeps(Lower(s), c);
    TrimKeeps(Collapse(Lower(s)), c);
  }

  /** A leading whitespace run collapses to one space. */
  lemma CollapseLeadingRun(lead: string, v: string)
    requires lead != [] && AllSpace(lead) && v != [] && !IsSpace(v[0])
    ensures Collapse(lead + v) == " " + Collapse(v)
  {
    assert (lead + v)[0] == lead[0];
    TrimStartSkips(lead, v);
  }

  /** Collapsing a padded trimmed string pads its collapse with at most one space per side. */
  lemma CollapsePadded(lead: string, u: string, tail: string) returns (front: string, back: string)
    requires AllSpace(lead) && AllSpace(tail) && u != [] && IsTrimmed(u)
    ensures Collapse(lead + u + tail) == front + Collapse(u) + back
    ensures AllSpace(front) && AllSpace(back)
  {
    var v := u + tail;
    back := Collapse(tail);
    assert Collapse(v) == Collapse(u) + back by {
      CollapseAppend(u, tail);
    }
    assert AllSpace(back) by {
      if tail != [] {
        CollapseSpaces(tail);
      }
    }
    front := if lead == [] then [] else " ";
    assert Collapse(lead + v) == front + Collapse(v) by {
      if lead == [] {
        assert lead + v == v;
      } else {
        assert v[0] == u[0];
        CollapseLeadingRun(lead, v);
      }
    }
    Assoc(lead, u, tail);
    Assoc(front, Collapse(u), back);
  }

  /** On a string with no whitespace at either end, `norm` is just lower-case and collapse. */
  lemma NormTrimmed(t: string)
    requires t != [] && IsTrimmed(t)
    ensures Norm(t) == Collapse(Lower(t))
  {
    CollapseTrimmed(Lower(t));
    var cu := Collapse(Lower(t));
    TrimPadded([], cu, []);
    assert [] + cu + [] == cu;
  }

  /** A cell holding only whitespace normalises to the empty string. */
  lemma NormBlank(s: string)
    requires AllSpace(s)
    ensures Norm(s) == ""
  {
    LowerSpaces(s);
    if s != [] {
      CollapseSpaces(s);
      assert AllSpace(" ");
    }
  }

  /** `norm` gives the same result on a cell and on its trimmed value. */
  lemma NormIgnoresPadding(s: string)
    ensures Norm(Trim(s)) == Norm(s)
  {
    var lead, tail := TrimDecompose(s);
    var t := Trim(s);
    if t == [] {
      NormBlank(s);
      NormBlank(t);
    } else {
      var u := Lower(t);
      assert Lower(s) == lead + u + tail by {
        LowerAppend(lead, t);
        LowerAppend(lead + t, tail);
        LowerSpaces(lead);
        LowerSpaces(tail);
      }
      NormTrimmed(t);
      LowerTrimmed(t);
      CollapseTrimmed(u);
      var front, back := CollapsePadded(lead, u, tail);
      TrimPadded(front, Collapse(u), back);
    }
  }

  /** `s.startsWith(p)`. */
  predicate StartsWith(s: string, p: string) {
    |p| <= |s| && s[..|p|] == p
  }

  /** `s.endsWith(p)`. */
  predicate EndsWith(s: string, p: string) {
    |p| <= |s| && s[|s| - |p|..] == p
  }

  predicate NoneOf(s: string, seps: set<char>) {
    forall i :: 0 <= i < |s| ==> s[i] !in seps
  }

  /** Position of the first character of `s` in `seps`, or `|s|` when there is none. */
  function IndexOfAny(s: string, seps: set<char>): (k: nat)
    ensures k <= |s|
    ensures k < |s| ==> s[k] in seps
    ensures NoneOf(s[..k], seps)
    decreases |s|
  {
    if s == [] then 0
    else if s[0] in seps then 0
    else 1 + IndexOfAny(s[1..], seps)
  }

  /** `s.split(c)` for single-character separators: the pieces between separators, in order. */
  function SplitOn(s: string, seps: set<char>): (parts: seq<string>)
    ensures |parts| >= 1
    ensures forall k :: 0 <= k < |parts| ==> NoneOf(parts[k], seps)
    decreases |s|
  {
    var k := IndexOfAny(s, seps);
    if k == |s| then [s] else [s[..k]] + SplitOn(s[k + 1..], seps)
  }

  /** `parts.join(sep)`; the empty list joins to the empty string. */
  function Join(parts: seq<string>, sep: string): string
    decreases |parts|
  {
    if |parts| == 0 then ""
    else if |parts| == 1 then parts[0]
    else parts[0] + sep + Join(parts[1..], sep)
  }

  /** Joining the pieces of a split with the same separator restores the string. */
  lemma {:induction false} JoinSplit(s: string, c: char)
    ensures Join(SplitOn(s, {c}), [c]) == s
    decreases |s|
  {
    var k := IndexOfAny(s, {c});
    if k < |s| {
      var rest := SplitOn(s[k + 1..], {c});
      JoinSplit(s[k + 1..], c);
      assert SplitOn(s, {c}) == [s[..k]] + rest;
      assert (([s[..k]] + rest)[1..]) == rest;
      assert s == s[..k] + [c] + s[k + 1..];
    }
  }

  lemma {:induction false} IndexAfterPiece(x: string, d: char, y: string, seps: set<char>)
    requires NoneOf(x, seps) && d in seps
    ensures IndexOfAny(x + [d] + y, seps) == |x|
    decreases |x|
  {
    var s := x + [d] + y;
    if x == [] {
      assert s[0] == d;
    } else {
      assert s[0] == x[0];
      assert s[1..] == x[1..] + [d] + y;
      IndexAfterPiece(x[1..], d, y, seps);
    }
  }

  /** A separator right after a separator-free prefix ends the first piece. */
  lemma SplitAfterPiece(x: string, d: char, y: string, seps: set<char>)
    requires NoneOf(x, seps) && d in seps
    ensures SplitOn(x + [d] + y, seps) == [x] + SplitOn(y, seps)
  {
    var s := x + [d] + y;
    IndexAfterPiece(x, d, y, seps);
    assert s[..|x|] == x;
    assert s[|x| + 1..] == y;
  }

  lemma {:induction false} IndexWhole(x: string, seps: set<char>)
    requires NoneOf(x, seps)
    ensures IndexOfAny(x, seps) == |x|
    decreases |x|
  {
    if x != [] {
      IndexWhole(x[1..], seps);
    }
  }

  lemma SplitWhole(x: string, seps: set<char>)
    requires NoneOf(x, seps)
    ensures SplitOn(x, seps) == [x]
  {
    IndexWhole(x, seps);
  }

  /**
   * The pieces of `p + Join(fs, l + [d] + r)` split at `d`: the first field
   * after `p`, then each field between the `r` and `l` around its separators.
   */
  function JoinedPieces(p: string, fs: seq<string>, l: string, r: string): (ps: seq<string>)
    requires |fs| >= 1
    ensures |ps| == |fs|
    decreases |fs|
  {
    if |fs| == 1 then [p + fs[0]] else [p + fs[0] + l] + JoinedPieces(r, fs[1..], l, r)
  }

  /** Splitting fields joined by a separator around one separator character gives the fields back, with the separator's sides attached. */
  lemma {:induction false} SplitJoined(p: string, fs: seq<string>, l: string, d: char, r: string, seps: set<char>)
    requires |fs| >= 1 && d in seps
    requires NoneOf(p, seps) && NoneOf(l, seps) && NoneOf(r, seps)
    requires forall k :: 0 <= k < |fs| ==> NoneOf(fs[k], seps)
    ensures SplitOn(p + Join(fs, l + [d] + r), seps) == JoinedPieces(p, fs, l, r)
    decreases |fs|
  {
    NoneOfAppend(p, fs[0], seps);
    if |fs| == 1 {
      SplitWhole(p + fs[0], seps);
    } else {
      var rest := Join(fs[1..], l + [d] + r);
      var x := p + fs[0] + l;
      NoneOfAppend(p + fs[0], l, seps);
      JoinStep(p, fs, l, d, r);
      SplitAfterPiece(x, d, r + rest, seps);
      SplitJoined(r, fs[1..], l, d, r, seps);
    }
  }

  /** One step of a join, regrouped around the separator character. */
  lemma JoinStep(p: string, fs: seq<string>, l: string, d: char, r: string)
    requires |fs| >= 2
    ensures p + Join(fs, l + [d] + r) == (p + fs[0] + l) + [d] + (r + Join(fs[1..], l + [d] + r))
  {
    var rest := Join(fs[1..], l + [d] + r);
    assert Join(fs, l + [d] + r) == fs[0] + (l + [d] + r) + rest;
  }

  /** Trimming the pieces of a join around whitespace-only sides gives back trimmed fields. */
  lemma {:induction false} TrimJoinedPieces(p: string, fs: seq<string>, l: string, r: string)
    requires |fs| >= 1 && AllSpace(p) && AllSpace(l) && AllSpace(r)
    requires forall k :: 0 <= k < |fs| ==> IsTrimmed(fs[k])
    ensures TrimAll(JoinedPieces(p, fs, l, r)) == fs
    decreases |fs|
  {
    var ps := JoinedPieces(p, fs, l, r);
    if |fs| == 1 {
      TrimPadded(p, fs[0], []);
      assert p + fs[0] + [] == p + fs[0];
    } else {
      TrimPadded(p, fs[0], l);
      TrimJoinedPieces(r, fs[1..], l, r);
      TrimAllCons(p + fs[0] + l, JoinedPieces(r, fs[1..], l, r));
      assert [fs[0]] + fs[1..] == fs;
    }
  }

  lemma TrimAllCons(a: string, rest: seq<string>)
    ensures TrimAll([a] + rest) == [Trim(a)] + TrimAll(rest)
  {
    TrimAllTail(a, rest);
    Rejoin(TrimAll([a] + rest), Trim(a), TrimAll(rest));
  }

  /** A non-empty sequence is its head followed by its tail. */
  lemma Rejoin<T>(x: seq<T>, h: T, t: seq<T>)
    requires |x| > 0 && x[0] == h && x[1..] == t
    ensures x == [h] + t
  {
  }

  /** Dropping the head of the pieces drops the head of their trims. */
  lemma TrimAllTail(a: string, rest: seq<string>)
    ensures TrimAll([a] + rest)[1..] == TrimAll(rest)
  {
    var x := TrimAll([a] + rest);
    var t := TrimAll(rest);
    forall k | 0 <= k < |t|
      ensures x[1..][k] == t[k]
    {
      assert ([a] + rest)[k + 1] == rest[k];
    }
  }

  /** With empty sides, the pieces of a join are the fields themselves. */
  lemma {:induction false} PlainJoinedPieces(fs: seq<string>)
    requires |fs| >= 1
    ensures JoinedPieces("", fs, "", "") == fs
    decreases |fs|
  {
    if |fs| == 1 {
      assert "" + fs[0] == fs[0];
    } else {
      PlainJoinedPieces(fs[1..]);
      assert "" + fs[0] + "" == fs[0];
    }
  }

  /** Applies `Trim` to every piece. */
  function TrimAll(parts: seq<string>): (r: seq<string>)
    ensures |r| == |parts|
    ensures forall k :: 0 <= k < |r| ==> r[k] == Trim(parts[k])
  {
    seq(|parts|, k requires 0 <= k < |parts| => Trim(parts[k]))
  }

  /** Trimming never introduces a character. */
  lemma TrimNoneOf(s: string, seps: set<char>)
    requires NoneOf(s, seps)
    ensures NoneOf(Trim(s), seps)
  {
    var lead, tail := TrimDecompose(s);
    var t := Trim(s);
    forall i | 0 <= i < |t|
      ensures t[i] !in seps
    {
      assert t[i] == (lead + t + tail)[|lead| + i];
    }
  }

  lemma NoneOfAppend(a: string, b: string, seps: set<char>)
    requires NoneOf(a, seps) && NoneOf(b, seps)
    ensures NoneOf(a + b, seps)
  {
    forall i | 0 <= i < |a + b|
      ensures (a + b)[i] !in seps
    {
      if i >= |a| {
        assert (a + b)[i] == b[i - |a|];
      }
    }
  }

  /** The lower-case text `p` occurs in `s` at position `j`, ignoring ASCII case. */
  predicate MatchesAt(s: string, p: string, j: nat) {
    j + |p| <= |s| && Lower(s[j..j + |p|]) == p
  }

  /**
   * Position of the first occurrence of the lower-case text `p` in `s`,
   * ignoring ASCII case; `|s|` when there is none.
   */
  function FindIgnoringCase(s: string, p: string): (k: nat)
    requires p != []
    ensures k <= |s|
    ensures k < |s| ==> MatchesAt(s, p, k)
    ensures forall j :: 0 <= j < k ==> !MatchesAt(s, p, j)
    ensures k == |s| ==> forall j :: 0 <= j <= |s| ==> !MatchesAt(s, p, j)
    decreases |s|
  {
    if |s| < |p| then |s|
    else if MatchesAt(s, p, 0) then 0
    else
      var k := FindIgnoringCase(s[1..], p);
      MatchesShift(s, p);
      1 + k
  }

  /** Matching at position `j > 0` of `s` is matching at `j - 1` of its tail. */
  lemma MatchesShift(s: string, p: string)
    requires s != []
    ensures forall j :: 1 <= j <= |s| ==> MatchesAt(s, p, j) == MatchesAt(s[1..], p, j - 1)
  {
    forall j | 1 <= j <= |s|
      ensures MatchesAt(s, p, j) == MatchesAt(s[1..], p, j - 1)
    {
      if j + |p| <= |s| {
        SliceOfTail(s, j, |p|);
      }
    }
  }

  lemma SliceOfTail<T>(s: seq<T>, j: nat, n: nat)
    requires 1 <= j && j + n <= |s|
    ensures s[j..j + n] == s[1..][j - 1..j - 1 + n]
  {
    var a := s[j..j + n];
    var b := s[1..][j - 1..j - 1 + n];
    forall i | 0 <= i < n
      ensures a[i] == b[i]
    {
    }
  }

  /** `s.replace(/p/i, "")` for a literal `p`: removes the first occurrence, ignoring ASCII case. */
  function RemoveFirstIgnoringCase(s: string, p: string): (r: string)
    requires p != []
    ensures FindIgnoringCase(s, p) == |s| ==> r == s
    ensures FindIgnoringCase(s, p) < |s| ==> |r| == |s| - |p|
    ensures var k := FindIgnoringCase(s, p);
      k < |s| ==> r[..k] == s[..k] && r[k..] == s[k + |p|..]
  {
    var k := FindIgnoringCase(s, p);
    if k < |s| then s[..k] + s[k + |p|..] else s
  }

  /** A text that starts with `p` (in any case) loses exactly that prefix. */
  lemma RemoveFirstAtStart(w: string, p: string, rest: string)
    requires p != [] && |w| == |p| && Lower(w) == p
    ensures RemoveFirstIgnoringCase(w + rest, p) == rest
  {
    var s := w + rest;
    assert s[0..|p|] == w;
    assert MatchesAt(s, p, 0);
    assert FindIgnoringCase(s, p) == 0;
    assert s[|p|..] == rest;
  }

  /** A text in which no character folds to `c` has nothing to remove. */
  lemma RemoveFirstAbsent(s: string, c: char)
    requires forall i | 0 <= i < |s| :: LowerChar(s[i]) != c
    ensures RemoveFirstIgnoringCase(s, [c]) == s
  {
    forall j | 0 <= j < |s|
      ensures !MatchesAt(s, [c], j)
    {
      assert Lower(s[j..j + 1])[0] == LowerChar(s[j]);
    }
  }

  /**
   * Reads back a list written with `join(", ")`: the text up to the first
   * comma, then the list after the comma and the space that follows it.
   */
  function SplitList(s: string): (items: seq<string>)
    ensures |items| >= 1
    decreases |s|
  {
    var k := IndexOfAny(s, {','});
    if k == |s| then [s]
    else if k + 2 <= |s| then [s[..k]] + SplitList(s[k + 2..])
    else [s[..k], ""]
  }

  /** Joining comma-free items with ", " and reading the list back gives the items. */
  lemma {:induction false} SplitListJoin(items: seq<string>)
    requires items != []
    requires forall k :: 0 <= k < |items| ==> NoneOf(items[k], {','})
    ensures SplitList(Join(items, ", ")) == items
    decreases |items|
  {
    var x := items[0];
    if |items| == 1 {
      IndexWhole(x, {','});
    } else {
      var rest := items[1..];
      forall k | 0 <= k < |rest|
        ensures NoneOf(rest[k], {','})
      {
        assert rest[k] == items[k + 1];
      }
      SplitListJoin(rest);
      assert Join(items, ", ") == x + ", " + Join(rest, ", ");
      SplitListStep(x, Join(rest, ", "));
      assert items == [x] + rest;
    }
  }

  /** An item without commas, then ", ", then a list: reading it back yields the item first. */
  lemma SplitListStep(x: string, j: string)
    requires NoneOf(x, {','})
    ensures SplitList(x + ", " + j) == [x] + SplitList(j)
  {
    var s := x + ", " + j;
    assert s == x + [','] + ([' '] + j);
    IndexAfterPiece(x, ',', [' '] + j, {','});
    assert s[..|x|] == x;
    assert s[|x| + 2..] == j;
  }
}
